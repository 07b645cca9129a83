/**
 Stitching fragments (edges or stored partial paths) onto a path agrees with walking the graph,
 however the walk is cut into fragments.
 */
module Stitching {
  import opened Wrappers
  import opened Graphs
  import opened Unification
  import opened PartialPaths
  import opened Exactness
  import opened AppendExactness
  import opened Renaming
  import opened Composition
  import opened Concatenation
  import opened Settling

  datatype Fragment = EdgeFragment(edge: Edge) | PathFragment(path: PartialPath) {
    function StartNode(): NodeHandle {
      match this
      case EdgeFragment(e) => e.source
      case PathFragment(p) => p.startNode
    }

    function EndNode(): NodeHandle {
      match this
      case EdgeFragment(e) => e.sink
      case PathFragment(p) => p.endNode
    }
  }

  function EdgeCount(f: Fragment): nat {
    match f
    case EdgeFragment(_) => 1
    case PathFragment(p) => |p.edges|
  }

  function EdgeCounts(fragments: seq<Fragment>): nat {
    if fragments == [] then 0
    else EdgeCounts(fragments[..|fragments| - 1]) + EdgeCount(fragments[|fragments| - 1])
  }

  function AppendFragment(g: Graph, path: PartialPath, f: Fragment, depth: nat)
    : Result<PartialPath, PathResolutionError>
  {
    match f
    case EdgeFragment(e) => AppendEdge(g, path, e)
    case PathFragment(p) => AppendPath(g, path, p, depth)
  }

  function Stitch(g: Graph, path: PartialPath, fragments: seq<Fragment>, depth: nat)
    : Result<PartialPath, PathResolutionError>
  {
    if fragments == [] then Ok(path)
    else
      match Stitch(g, path, fragments[..|fragments| - 1], depth)
      case Err(e) => Err(e)
      case Ok(p) => AppendFragment(g, p, fragments[|fragments| - 1], depth)
  }

  /** The fragment stands for the walk `u`, which does not start at a jump. */
  ghost predicate Describes(g: Graph, f: Fragment, u: Walk) {
    && !g.Kind(u[0]).JumpTo?
    && match f
       case EdgeFragment(e) => u == [e.source, e.sink]
       case PathFragment(p) => Summary(g, p, u, Anywhere) && Open(p)
  }

  /** The node that the walks lead to from `n`. */
  function EndAt(n: NodeHandle, us: seq<Walk>): NodeHandle {
    if us == [] then n else Last(us[|us| - 1])
  }

  /** The walks follow one another from `n`. */
  predicate Meet(n: NodeHandle, us: seq<Walk>) {
    us != [] ==> Meet(n, us[..|us| - 1]) && EndAt(n, us[..|us| - 1]) == us[|us| - 1][0]
  }

  function SpliceAll(w: Walk, us: seq<Walk>): (r: Walk)
    requires Meet(Last(w), us)
    ensures r[0] == w[0] && Last(r) == EndAt(Last(w), us)
  {
    if us == [] then w else Splice(SpliceAll(w, us[..|us| - 1]), us[|us| - 1])
  }

  ghost predicate DescribeAll(g: Graph, fragments: seq<Fragment>, us: seq<Walk>) {
    |fragments| == |us| && forall i :: 0 <= i < |us| ==> Describes(g, fragments[i], us[i])
  }

  /** None of the walks ends in a jump. */
  predicate AllPlain(g: Graph, us: seq<Walk>) {
    forall i :: 0 <= i < |us| ==> !g.Kind(Last(us[i])).JumpTo?
  }

  /** The walks follow one another from the end of `w`, where a jump that is decided is followed at once. */
  ghost predicate Consecutive(g: Graph, w: Walk, us: seq<Walk>, o: Origin)
    decreases |us|, 0
  {
    us != [] ==>
      var front := us[..|us| - 1];
      Consecutive(g, w, front, o) && Last(Journey(g, w, front, o)) == us[|us| - 1][0]
  }

  /** The walk that the walks make up, together with the jumps between them. */
  ghost function Journey(g: Graph, w: Walk, us: seq<Walk>, o: Origin): (r: Walk)
    requires Consecutive(g, w, us, o)
    ensures r[0] == w[0]
    decreases |us|, 1
  {
    if us == [] then w else Settle(g, Splice(Journey(g, w, us[..|us| - 1], o), us[|us| - 1]), o)
  }

  function MoveCount(us: seq<Walk>): nat {
    if us == [] then 0 else MoveCount(us[..|us| - 1]) + |us[|us| - 1]| - 1
  }

  // ---------------------------------------------------------------------------------------------
  // Splicing

  lemma SpliceAssociative(w: Walk, u: Walk, v: Walk)
    requires Last(w) == u[0] && Last(u) == v[0]
    ensures Splice(Splice(w, u), v) == Splice(w, Splice(u, v))
  {
    assert (u + v[1..])[1..] == u[1..] + v[1..];
  }

  lemma {:induction false} SpliceAllConcat(w: Walk, a: seq<Walk>, b: seq<Walk>)
    requires Meet(Last(w), a + b)
    ensures Meet(Last(w), a) && Meet(EndAt(Last(w), a), b)
    ensures SpliceAll(w, a + b) == SpliceAll(SpliceAll(w, a), b)
    decreases |b|
  {
    if b == [] {
      assert a + b == a;
    } else {
      var front := b[..|b| - 1];
      assert (a + b)[..|a + b| - 1] == a + front;
      SpliceAllConcat(w, a, front);
    }
  }

  lemma {:induction false} SpliceAllOnto(w: Walk, u: Walk, us: seq<Walk>)
    requires Last(w) == u[0] && Meet(Last(u), us)
    ensures SpliceAll(Splice(w, u), us) == Splice(w, SpliceAll(u, us))
  {
    if us == [] {
    } else {
      var front := us[..|us| - 1];
      SpliceAllOnto(w, u, front);
      SpliceAssociative(w, SpliceAll(u, front), us[|us| - 1]);
    }
  }

  /** Both parts of a feasible walk are feasible. */
  lemma FeasibleParts(g: Graph, w: Walk, u: Walk, o: Origin)
    requires Last(w) == u[0] && Feasible(g, Splice(w, u), o)
    ensures Feasible(g, w, o) && Feasible(g, u, Anywhere)
  {
    var s :| o.Admits(s) && Run(g, Splice(w, u), s).Some?;
    RunSplice(g, w, u, s);
    var entered := EndsEntered(g, w, s);
    assert Run(g, u, entered).Some?;
  }

  // ---------------------------------------------------------------------------------------------
  // Journeys

  /** Without jumps, a journey is the splice of its walks. */
  lemma {:induction false} PlainJourney(g: Graph, w: Walk, us: seq<Walk>, o: Origin)
    requires Meet(Last(w), us) && AllPlain(g, us)
    ensures Consecutive(g, w, us, o) && Journey(g, w, us, o) == SpliceAll(w, us)
    ensures |SpliceAll(w, us)| == |w| + MoveCount(us)
  {
    if us != [] {
      PlainJourney(g, w, us[..|us| - 1], o);
    }
  }

  /** A journey goes on from where an earlier part of it has come to. */
  lemma {:induction false} JourneyConcat(g: Graph, w: Walk, a: seq<Walk>, b: seq<Walk>, o: Origin)
    requires Consecutive(g, w, a + b, o)
    ensures Consecutive(g, w, a, o) && Consecutive(g, Journey(g, w, a, o), b, o)
    ensures Journey(g, w, a + b, o) == Journey(g, Journey(g, w, a, o), b, o)
    decreases |b|
  {
    if b == [] {
      assert a + b == a;
    } else {
      var front := b[..|b| - 1];
      assert (a + b)[..|a + b| - 1] == a + front;
      JourneyConcat(g, w, a, front, o);
    }
  }

  /** Where a later part of a walk that starts after the end of `w` is passable, so is that part alone. */
  lemma PassableParts(g: Graph, w: Walk, u: Walk, o: Origin)
    requires Last(w) == u[0] && Passable(g, Splice(w, u), o)
    ensures Feasible(g, w, o) && Passable(g, u, Anywhere)
  {
    FeasibleParts(g, w, u, o);
    if Stuck(g, u, Anywhere) {
      forall c | EndsWith(g, Splice(w, u), o, c)
        ensures c == []
      {
        SplicedEnds(g, w, u, o, c);
      }
    }
  }

  /** A part of a passable journey that is followed by walks is passable. */
  lemma {:induction false} PassableStart(g: Graph, w: Walk, us: seq<Walk>, o: Origin)
    requires Consecutive(g, w, us, o) && Passable(g, Journey(g, w, us, o), o)
    requires forall i :: 0 <= i < |us| ==> !g.Kind(us[i][0]).JumpTo?
    ensures Passable(g, w, o)
  {
    hide Passable, Settle;
    if us != [] {
      var k := |us| - 1;
      var v := Journey(g, w, us[..k], o);
      PassableBefore(g, v, us[k], o);
      PassableStart(g, w, us[..k], o);
    }
  }

  lemma PassableBefore(g: Graph, w: Walk, u: Walk, o: Origin)
    requires Last(w) == u[0] && !g.Kind(u[0]).JumpTo?
    requires Passable(g, Settle(g, Splice(w, u), o), o)
    ensures Passable(g, Splice(w, u), o) && Passable(g, w, o)
  {
    SettledPassable(g, Splice(w, u), o);
    FeasibleParts(g, w, u, o);
  }

  // ---------------------------------------------------------------------------------------------
  // Stitching is walking

  /**
   Appending a fragment extends a summary to the longer walk, settled.  It fails exactly when no stacks can
   run that walk, or it comes to a jump and none of its runs leaves a scope to jump to.
   */
  lemma AppendFragmentSummary(g: Graph, path: PartialPath, w: Walk, f: Fragment, u: Walk, depth: nat, o: Origin)
    requires g.AttachedScopesExist()
    requires Summary(g, path, w, o) && Describes(g, f, u) && Last(w) == u[0]
    ensures var r, v := AppendFragment(g, path, f, depth), Splice(w, u);
            && (r.Ok? <==> Passable(g, v, o))
            && (r.Ok? ==> Summary(g, r.value, Settle(g, v, o), o) && Passable(g, Settle(g, v, o), o))
            && (r.Ok? && Open(path) ==> Open(r.value))
            && (r.Ok? ==> |r.value.edges| == |path.edges| + EdgeCount(f) + |Settle(g, v, o)| - |v|)
            && (r.Err? ==> r.error != StackOverflow && r.error != Panic)
  {
    hide Summary, Stuck, AppendEdge, AppendPath, Settle, Canonical;
    SummaryOf(g, path, w, o);
    match f {
      case EdgeFragment(e) =>
        assert Splice(w, u) == w + [e.sink];
        AppendEdgeSettles(g, path, w, e, o);
      case PathFragment(p) =>
        AppendPathSettles(g, path, w, p, u, depth, o);
    }
    if AppendFragment(g, path, f, depth).Ok? {
      SettledOnce(g, Splice(w, u), o);
    }
  }

  /** A settled jump leads to a scope, which is no jump. */
  lemma SettledOnce(g: Graph, w: Walk, o: Origin)
    requires Passable(g, w, o) && Feasible(g, Settle(g, w, o), o)
    ensures Passable(g, Settle(g, w, o), o)
  {
    if Settle(g, w, o) != w {
      var t := Last(Settle(g, w, o));
      var s :| o.Admits(s) && Run(g, w + [t], s).Some?;
      RunExtend(g, w, t, s);
    }
  }

  /**
   Stitching equals walking: stitching fragments onto a summary succeeds exactly when the journey that they
   make up can be run and does not get stuck at a jump; the result then relates exactly the stacks that the
   journey relates, and records one more edge for every jump on the way.
   */
  lemma {:induction false} StitchSummary(g: Graph, path: PartialPath, w: Walk, fragments: seq<Fragment>, us: seq<Walk>,
                                         depth: nat, o: Origin)
    requires g.AttachedScopesExist()
    requires Summary(g, path, w, o) && !g.Kind(Last(w)).JumpTo?
    requires DescribeAll(g, fragments, us) && Consecutive(g, w, us, o)
    ensures var r, v := Stitch(g, path, fragments, depth), Journey(g, w, us, o);
            && (r.Ok? <==> Passable(g, v, o))
            && (r.Ok? ==> Summary(g, r.value, v, o))
            && (r.Ok? && Open(path) ==> Open(r.value))
            && (r.Ok? ==> |r.value.edges| == |path.edges| + EdgeCounts(fragments) + |v| - |w| - MoveCount(us))
            && (r.Err? ==> r.error != StackOverflow && r.error != Panic)
    decreases |us|
  {
    hide Summary, Passable, Settle, Open, AppendFragment, Describes;
    if us == [] {
      StartPassable(g, path, w, o);
    } else {
      var k := |us| - 1;
      var v := Journey(g, w, us[..k], o);
      StitchSummary(g, path, w, fragments[..k], us[..k], depth, o);
      DescribedStart(g, fragments[k], us[k]);
      match Stitch(g, path, fragments[..k], depth)
      case Err(_) =>
        if Passable(g, Settle(g, Splice(v, us[k]), o), o) {
          PassableBefore(g, v, us[k], o);
        }
      case Ok(p) =>
        AppendFragmentSummary(g, p, v, fragments[k], us[k], depth, o);
        if Passable(g, Settle(g, Splice(v, us[k]), o), o) {
          PassableBefore(g, v, us[k], o);
        }
    }
  }

  lemma StartPassable(g: Graph, p: PartialPath, w: Walk, o: Origin)
    requires Summary(g, p, w, o) && !g.Kind(Last(w)).JumpTo?
    ensures Passable(g, w, o)
  {
    ExactFeasible(g, p, w, o);
  }

  lemma DescribedStart(g: Graph, f: Fragment, u: Walk)
    requires Describes(g, f, u)
    ensures !g.Kind(u[0]).JumpTo? && f.StartNode() == u[0] && f.EndNode() == Last(u)
  {
  }

  /** Without jumps: stitching succeeds exactly when stacks can run the spliced walk. */
  lemma StitchPlain(g: Graph, path: PartialPath, w: Walk, fragments: seq<Fragment>, us: seq<Walk>, depth: nat,
                    o: Origin)
    requires g.AttachedScopesExist()
    requires Summary(g, path, w, o) && !g.Kind(Last(w)).JumpTo?
    requires DescribeAll(g, fragments, us) && Meet(Last(w), us) && AllPlain(g, us)
    ensures var r := Stitch(g, path, fragments, depth);
            && (r.Ok? <==> Feasible(g, SpliceAll(w, us), o))
            && (r.Ok? ==> Summary(g, r.value, SpliceAll(w, us), o))
            && (r.Ok? && Open(path) ==> Open(r.value))
            && (r.Ok? ==> |r.value.edges| == |path.edges| + EdgeCounts(fragments))
            && (r.Err? ==> r.error != StackOverflow && r.error != Panic)
  {
    hide Summary, Open, Stitch, Describes;
    PlainJourney(g, w, us, o);
    StitchSummary(g, path, w, fragments, us, depth, o);
    assert !g.Kind(Last(SpliceAll(w, us))).JumpTo?;
  }

  /** Two ways of cutting one journey stitch to the same relation, or both fail. */
  lemma CutsAgree(g: Graph, path: PartialPath, w: Walk, fragments: seq<Fragment>, us: seq<Walk>,
                  path': PartialPath, w': Walk, fragments': seq<Fragment>, us': seq<Walk>,
                  depth: nat, depth': nat, o: Origin)
    requires g.AttachedScopesExist()
    requires Summary(g, path, w, o) && !g.Kind(Last(w)).JumpTo?
    requires DescribeAll(g, fragments, us) && Consecutive(g, w, us, o)
    requires Summary(g, path', w', o) && !g.Kind(Last(w')).JumpTo?
    requires DescribeAll(g, fragments', us') && Consecutive(g, w', us', o)
    requires Journey(g, w, us, o) == Journey(g, w', us', o)
    ensures var a, b := Stitch(g, path, fragments, depth), Stitch(g, path', fragments', depth');
            && (a.Ok? <==> b.Ok?)
            && (a.Ok? ==> forall s, t :: Relates(a.value, s, t) <==> Relates(b.value, s, t))
  {
    hide Journey, Consecutive, Stitch, Describes, Passable;
    StitchSummary(g, path, w, fragments, us, depth, o);
    StitchSummary(g, path', w', fragments', us', depth', o);
    var a, b := Stitch(g, path, fragments, depth), Stitch(g, path', fragments', depth');
    if a.Ok? {
      ExactDenotes(g, a.value, Journey(g, w, us, o), o);
      ExactDenotes(g, b.value, Journey(g, w, us, o), o);
    }
  }

  /** In particular, stitching stored fragments agrees with appending the edges one at a time. */
  lemma StitchingEqualsWalking(g: Graph, n: NodeHandle, edges: seq<Edge>, fragments: seq<Fragment>, us: seq<Walk>,
                               depth: nat)
    requires g.AttachedScopesExist()
    requires JumpFreeChain(g, n, edges)
    requires DescribeAll(g, fragments, us) && AllPlain(g, us) && Meet(n, us) && SpliceAll([n], us) == Nodes(n, edges)
    ensures FromNode(g, n).Ok?
    ensures var a, b := Trace(g, n, edges), Stitch(g, FromNode(g, n).value, fragments, depth);
            && (a.Ok? <==> b.Ok?)
            && (a.Ok? ==> forall s, t :: Relates(a.value, s, t) <==> Relates(b.value, s, t))
  {
    FromNodeSummary(g, n);
    ChainStart(g, n, edges);
    StitchPlain(g, FromNode(g, n).value, [n], fragments, us, depth, Anywhere);
    EdgeByEdge(g, n, edges);
    var b := Stitch(g, FromNode(g, n).value, fragments, depth);
    if b.Ok? {
      ExactDenotes(g, b.value, Nodes(n, edges), Anywhere);
    }
  }

  lemma {:induction false} ChainStart(g: Graph, n: NodeHandle, edges: seq<Edge>)
    requires JumpFreeChain(g, n, edges)
    ensures !g.Kind(n).JumpTo?
  {
    if edges != [] {
      ChainStart(g, n, edges[..|edges| - 1]);
    }
  }

  /** How a longer walk ends, its last part can end by itself. */
  lemma SplicedEnds(g: Graph, w: Walk, u: Walk, o: Origin, c: ScopeStack)
    requires Last(w) == u[0] && EndsWith(g, Splice(w, u), o, c)
    ensures EndsWith(g, u, Anywhere, c)
  {
    var s :| o.Admits(s) && Run(g, Splice(w, u), s).Some? && Run(g, Splice(w, u), s).value.scopes == c;
    RunSplice(g, w, u, s);
    var entered := EndsEntered(g, w, s);
    assert Anywhere.Admits(entered) && Run(g, u, entered) == Run(g, Splice(w, u), s);
  }

  /** Settling the last part of a walk by itself first makes no difference. */
  lemma SettledPart(g: Graph, w: Walk, u: Walk, o: Origin)
    requires Last(w) == u[0] && Feasible(g, Settle(g, u, Anywhere), Anywhere)
    ensures var v := Settle(g, u, Anywhere);
            && (Passable(g, Splice(w, u), o) <==> Passable(g, Splice(w, v), o))
            && (Passable(g, Splice(w, u), o) ==> Settle(g, Splice(w, v), o) == Settle(g, Splice(w, u), o))
  {
    var v, long := Settle(g, u, Anywhere), Splice(w, u);
    if v != u {
      var t := Last(v);
      assert Splice(w, v) == long + [t];
      var s :| Run(g, v, s).Some?;
      RunExtend(g, u, t, s);
      assert g.Kind(t).IsExportedScope();
      forall c | EndsWith(g, long, o, c)
        ensures c != [] && c[0] == t
      {
        SplicedEnds(g, w, u, o, c);
      }
      SettledOn(g, long, t, o);
    }
  }

  /** All runs of the walk lead on to the exported scope `t`. */
  lemma SettledOn(g: Graph, w: Walk, t: NodeHandle, o: Origin)
    requires g.Kind(Last(w)).JumpTo? && g.Kind(t).IsExportedScope() && LeadsTo(g, w, o, t)
    ensures Passable(g, w, o) <==> Passable(g, w + [t], o)
    ensures Passable(g, w, o) ==> Settle(g, w, o) == w + [t]
  {
    if s :| o.Admits(s) && Run(g, w, s).Some? {
      var c := Run(g, w, s).value.scopes;
      assert EndsWith(g, w, o, c);
      RunExtend(g, w, t, s);
      assert Run(g, w + [t], s).Some?;
      assert Decided(g, w, o);
    }
    if s :| o.Admits(s) && Run(g, w + [t], s).Some? {
      RunExtend(g, w, t, s);
      assert EndsWith(g, w, o, Run(g, w, s).value.scopes);
    }
  }

  /** Concatenation is associative up to renaming. */
  lemma AppendAssociative(g: Graph, a: PartialPath, wa: Walk, b: PartialPath, wb: Walk, c: PartialPath, wc: Walk,
                          depth: nat, o: Origin)
    requires g.AttachedScopesExist()
    requires Summary(g, a, wa, o)
    requires Describes(g, PathFragment(b), wb) && Describes(g, PathFragment(c), wc)
    requires Last(wa) == wb[0] && Last(wb) == wc[0]
    ensures var ab, bc := AppendPath(g, a, b, depth), AppendPath(g, b, c, depth);
            var left := if ab.Ok? then AppendPath(g, ab.value, c, depth) else ab;
            var right := if bc.Ok? then AppendPath(g, a, bc.value, depth) else bc;
            && (left.Ok? <==> right.Ok?)
            && (left.Ok? ==> forall s, t :: Relates(left.value, s, t) <==> Relates(right.value, s, t))
  {
    hide AppendPath, Passable, Settle, Feasible, Relates, Summary, Canonical;
    var ab, bc := AppendPath(g, a, b, depth), AppendPath(g, b, c, depth);
    var w, tail := Splice(Splice(wa, wb), wc), Splice(wb, wc);
    SpliceAssociative(wa, wb, wc);
    AppendPathSettles(g, a, wa, b, wb, depth, o);
    AppendPathSettles(g, b, wb, c, wc, depth, Anywhere);
    if Passable(g, w, o) {
      PassableParts(g, wa, tail, o);
      PassableStartOf(g, Splice(wa, wb), wc, o);
    }
    if ab.Ok? {
      AppendPathSettles(g, ab.value, Splice(wa, wb), c, wc, depth, o);
    }
    if bc.Ok? {
      var v := Settle(g, tail, Anywhere);
      AppendPathSettles(g, a, wa, bc.value, v, depth, o);
      SettledPart(g, wa, tail, o);
      if ab.Ok? && Passable(g, w, o) {
        var left, right := AppendPath(g, ab.value, c, depth).value, AppendPath(g, a, bc.value, depth).value;
        SameRelation(g, left, right, Settle(g, w, o), o);
      }
    }
  }

  lemma PassableStartOf(g: Graph, w: Walk, u: Walk, o: Origin)
    requires Last(w) == u[0] && !g.Kind(Last(w)).JumpTo? && Passable(g, Splice(w, u), o)
    ensures Passable(g, w, o)
  {
    FeasibleParts(g, w, u, o);
  }

  lemma SameRelation(g: Graph, p: PartialPath, q: PartialPath, w: Walk, o: Origin)
    requires Summary(g, p, w, o) && Summary(g, q, w, o)
    ensures forall s, t :: Relates(p, s, t) <==> Relates(q, s, t)
  {
    ExactDenotes(g, p, w, o);
    ExactDenotes(g, q, w, o);
  }

  // ---------------------------------------------------------------------------------------------
  // Fragments of a stitch that has succeeded

  lemma FeasibleTake(g: Graph, w: Walk, us: seq<Walk>, j: nat, o: Origin)
    requires Meet(Last(w), us) && j <= |us|
    requires Feasible(g, SpliceAll(w, us), o)
    ensures Meet(Last(w), us[..j]) && Feasible(g, SpliceAll(w, us[..j]), o)
  {
    assert us == us[..j] + us[j..];
    SpliceAllConcat(w, us[..j], us[j..]);
    FeasiblePrefix(g, SpliceAll(w, us[..j]), us[j..], o);
  }

  lemma FeasibleDrop(g: Graph, w: Walk, us: seq<Walk>, i: nat, o: Origin)
    requires Meet(Last(w), us) && i <= |us|
    requires Feasible(g, SpliceAll(w, us), o)
    ensures Meet(EndAt(Last(w), us[..i]), us[i..])
    ensures Feasible(g, SpliceAll([EndAt(Last(w), us[..i])], us[i..]), Anywhere)
  {
    assert us == us[..i] + us[i..];
    SpliceAllConcat(w, us[..i], us[i..]);
    var front := SpliceAll(w, us[..i]);
    var n := Last(front);
    assert Splice(front, [n]) == front;
    SpliceAllOnto(front, [n], us[i..]);
    FeasibleParts(g, front, SpliceAll([n], us[i..]), o);
  }

  /** Any run of fragments of a feasible walk is a feasible walk from its own start node. */
  lemma FeasibleRun(g: Graph, w: Walk, us: seq<Walk>, i: nat, j: nat, o: Origin)
    requires Meet(Last(w), us) && i <= j <= |us|
    requires Feasible(g, SpliceAll(w, us), o)
    ensures Meet(EndAt(Last(w), us[..i]), us[i..j])
    ensures Feasible(g, SpliceAll([EndAt(Last(w), us[..i])], us[i..j]), Anywhere)
  {
    FeasibleTake(g, w, us, j, o);
    FeasibleDrop(g, w, us[..j], i, o);
    assert us[..j][..i] == us[..i] && us[..j][i..] == us[i..j];
  }

  lemma {:induction false} FeasiblePrefix(g: Graph, w: Walk, us: seq<Walk>, o: Origin)
    requires Meet(Last(w), us) && Feasible(g, SpliceAll(w, us), o)
    ensures Feasible(g, w, o)
  {
    if us == [] {
    } else {
      FeasibleParts(g, SpliceAll(w, us[..|us| - 1]), us[|us| - 1], o);
      FeasiblePrefix(g, w, us[..|us| - 1], o);
    }
  }

  /** The walks from the `i`th up to the `j`th are passable on their own, if no jump comes between them. */
  lemma PassableRun(g: Graph, w: Walk, us: seq<Walk>, i: nat, j: nat, o: Origin)
    requires Consecutive(g, w, us, o) && Passable(g, Journey(g, w, us, o), o)
    requires forall k :: 0 <= k < |us| ==> !g.Kind(us[k][0]).JumpTo?
    requires i < j <= |us| && AllPlain(g, us[i..j - 1])
    ensures Meet(us[i][0], us[i..j]) && Passable(g, SpliceAll([us[i][0]], us[i..j]), Anywhere)
  {
    hide Passable, Settle, Journey, Consecutive, SpliceAll, Meet;
    var last := us[j - 1];
    PassableUpTo(g, w, us, j, o);
    FirstMeets(g, w, us, j - 1, o);
    FirstMeets(g, w, us, i, o);
    var v, part := Journey(g, w, us[..i], o), us[i..j - 1];
    assert us[..j - 1] == us[..i] + part;
    JourneyConcat(g, w, us[..i], part, o);
    PlainMeet(g, v, part, o);
    assert us[i..j] == part + [last];
    PassableTail(g, v, part, last, o);
  }

  lemma PassableUpTo(g: Graph, w: Walk, us: seq<Walk>, j: nat, o: Origin)
    requires Consecutive(g, w, us, o) && Passable(g, Journey(g, w, us, o), o)
    requires forall k :: 0 <= k < |us| ==> !g.Kind(us[k][0]).JumpTo?
    requires 0 < j <= |us|
    ensures Consecutive(g, w, us[..j - 1], o) && Last(Journey(g, w, us[..j - 1], o)) == us[j - 1][0]
    ensures Passable(g, Splice(Journey(g, w, us[..j - 1], o), us[j - 1]), o)
  {
    hide Passable, Settle;
    assert us == us[..j] + us[j..];
    JourneyConcat(g, w, us[..j], us[j..], o);
    PassableStart(g, Journey(g, w, us[..j], o), us[j..], o);
    assert us[..j][..j - 1] == us[..j - 1];
    PassableBefore(g, Journey(g, w, us[..j - 1], o), us[j - 1], o);
  }

  lemma PassableTail(g: Graph, v: Walk, part: seq<Walk>, last: Walk, o: Origin)
    requires Meet(Last(v), part) && Last(SpliceAll(v, part)) == last[0]
    requires Passable(g, Splice(SpliceAll(v, part), last), o)
    ensures Meet(Last(v), part + [last]) && Passable(g, SpliceAll([Last(v)], part + [last]), Anywhere)
  {
    hide Passable;
    var n := Last(v);
    assert Splice(v, [n]) == v;
    SpliceAllOnto(v, [n], part);
    MeetSnoc(n, part, last);
    SpliceAssociative(v, SpliceAll([n], part), last);
    PassableParts(g, v, SpliceAll([n], part + [last]), o);
  }

  lemma FirstMeets(g: Graph, w: Walk, us: seq<Walk>, i: nat, o: Origin)
    requires Consecutive(g, w, us, o) && i < |us|
    ensures Consecutive(g, w, us[..i], o) && Last(Journey(g, w, us[..i], o)) == us[i][0]
  {
    assert us == us[..i + 1] + us[i + 1..];
    JourneyConcat(g, w, us[..i + 1], us[i + 1..], o);
    assert us[..i + 1][..i] == us[..i];
  }

  lemma {:induction false} PlainMeet(g: Graph, w: Walk, us: seq<Walk>, o: Origin)
    requires Consecutive(g, w, us, o) && AllPlain(g, us)
    ensures Meet(Last(w), us) && Journey(g, w, us, o) == SpliceAll(w, us)
  {
    if us != [] {
      PlainMeet(g, w, us[..|us| - 1], o);
    }
  }

  lemma MeetSnoc(n: NodeHandle, us: seq<Walk>, u: Walk)
    requires Meet(n, us) && EndAt(n, us) == u[0]
    ensures Meet(n, us + [u]) && SpliceAll([n], us + [u]) == Splice(SpliceAll([n], us), u)
  {
    assert (us + [u])[..|us|] == us;
  }

  /**
   Fragments of a valid stitch never fail: if stitching a list of fragments has succeeded, stitching any
   contiguous run of it from the node where that run starts succeeds too, as long as no jump comes between
   the fragments of that run.
   */
  lemma FragmentsNeverFail(g: Graph, path: PartialPath, w: Walk, fragments: seq<Fragment>, us: seq<Walk>,
                           i: nat, j: nat, depth: nat, o: Origin)
    requires g.AttachedScopesExist()
    requires Summary(g, path, w, o) && !g.Kind(Last(w)).JumpTo?
    requires DescribeAll(g, fragments, us) && Consecutive(g, w, us, o)
    requires Stitch(g, path, fragments, depth).Ok?
    requires i < j <= |fragments| && AllPlain(g, us[i..j - 1])
    ensures FromNode(g, us[i][0]).Ok?
    ensures Stitch(g, FromNode(g, us[i][0]).value, fragments[i..j], depth).Ok?
  {
    hide SpliceAll, Meet, Summary, Passable, FromNode, Describes, Open, Settle, Consecutive, AppendFragment;
    var n := us[i][0];
    StitchSummary(g, path, w, fragments, us, depth, o);
    forall k | 0 <= k < |us|
      ensures !g.Kind(us[k][0]).JumpTo?
    {
      DescribedStart(g, fragments[k], us[k]);
    }
    PassableRun(g, w, us, i, j, o);
    FromNodeSummary(g, n);
    assert us[i..j][..j - i - 1] == us[i..j - 1];
    RunStitches(g, n, fragments[i..j], us[i..j], depth);
  }

  lemma RunStitches(g: Graph, n: NodeHandle, fragments: seq<Fragment>, us: seq<Walk>, depth: nat)
    requires g.AttachedScopesExist() && FromNode(g, n).Ok? && !g.Kind(n).JumpTo?
    requires us != [] && DescribeAll(g, fragments, us) && AllPlain(g, us[..|us| - 1])
    requires Meet(n, us) && Passable(g, SpliceAll([n], us), Anywhere)
    ensures Stitch(g, FromNode(g, n).value, fragments, depth).Ok?
  {
    hide Summary, Passable, FromNode, Describes, Open, AppendFragment;
    var k := |us| - 1;
    FromNodeSummary(g, n);
    PassableParts(g, SpliceAll([n], us[..k]), us[k], Anywhere);
    StitchPlain(g, FromNode(g, n).value, [n], fragments[..k], us[..k], depth, Anywhere);
    AppendFragmentSummary(g, Stitch(g, FromNode(g, n).value, fragments[..k], depth).value, SpliceAll([n], us[..k]),
                          fragments[k], us[k], depth, Anywhere);
  }
}
