/**
 The blocks that the cycle detector rebuilds, jumps included.  Rebuilt from any stacks, a block may wait at a jump
 that the stitched path has not waited at; the target is then chosen to be where the next fragment starts, which
 is where the stitched path has gone.  As long as all choices are free, the block summarises its part of the way.
 */
module ChosenBlocks {
  import opened Wrappers
  import opened Graphs
  import opened Patterns
  import opened Unification
  import opened PartialPaths
  import opened Exactness
  import opened AppendExactness
  import opened Settling
  import opened Stitching
  import opened CycleDetection
  import opened LinearComposition
  import opened ChosenJumps

  // ---------------------------------------------------------------------------------------------
  // Parts of the way that a stitched path has gone

  /** The way that the first `i` walks make up. */
  ghost function Way(g: Graph, us: seq<Walk>, o: Origin, i: nat): (w: Walk)
    requires us != [] && i <= |us| && Consecutive(g, [us[0][0]], us, o)
  {
    WayConsecutive(g, us, o, i);
    Journey(g, [us[0][0]], us[..i], o)
  }

  lemma WayConsecutive(g: Graph, us: seq<Walk>, o: Origin, i: nat)
    requires us != [] && i <= |us| && Consecutive(g, [us[0][0]], us, o)
    ensures Consecutive(g, [us[0][0]], us[..i], o)
  {
    assert us == us[..i] + us[i..];
    JourneyConcat(g, [us[0][0]], us[..i], us[i..], o);
  }

  lemma WayStep(g: Graph, us: seq<Walk>, o: Origin, i: nat)
    requires us != [] && i < |us| && Consecutive(g, [us[0][0]], us, o)
    ensures Last(Way(g, us, o, i)) == us[i][0]
    ensures Way(g, us, o, i + 1) == Settle(g, Splice(Way(g, us, o, i), us[i]), o)
  {
    WayConsecutive(g, us, o, i + 1);
    assert us[..i + 1][..i] == us[..i];
  }

  lemma {:induction false} WayGrows(g: Graph, us: seq<Walk>, o: Origin, i: nat, j: nat)
    requires us != [] && i <= j <= |us| && Consecutive(g, [us[0][0]], us, o)
    ensures Way(g, us, o, i) <= Way(g, us, o, j)
    decreases j
  {
    hide Way, Settle;
    if i < j {
      WayGrows(g, us, o, i, j - 1);
      WayStep(g, us, o, j - 1);
    }
  }

  /** The part of the way that walks `i` up to `j` add. */
  ghost function Stretch(g: Graph, us: seq<Walk>, o: Origin, i: nat, j: nat): (w: Walk)
    requires us != [] && i <= j <= |us| && Consecutive(g, [us[0][0]], us, o)
    ensures w[0] == Last(Way(g, us, o, i)) && Last(w) == Last(Way(g, us, o, j))
    ensures Splice(Way(g, us, o, i), w) == Way(g, us, o, j)
  {
    WayGrows(g, us, o, i, j);
    Way(g, us, o, j)[|Way(g, us, o, i)| - 1..]
  }

  lemma StretchJoin(g: Graph, us: seq<Walk>, o: Origin, i: nat, k: nat, j: nat)
    requires us != [] && i <= k <= j <= |us| && Consecutive(g, [us[0][0]], us, o)
    ensures Last(Stretch(g, us, o, i, k)) == Stretch(g, us, o, k, j)[0]
    ensures Splice(Stretch(g, us, o, i, k), Stretch(g, us, o, k, j)) == Stretch(g, us, o, i, j)
  {
    hide Way;
    WayGrows(g, us, o, i, k);
    WayGrows(g, us, o, k, j);
    var a, b, c := Way(g, us, o, i), Way(g, us, o, k), Way(g, us, o, j);
    assert b[|a| - 1..] + c[|b|..] == c[|a| - 1..];
    assert c[|b| - 1..][1..] == c[|b|..];
  }

  lemma StretchNone(g: Graph, us: seq<Walk>, o: Origin, i: nat)
    requires us != [] && i <= |us| && Consecutive(g, [us[0][0]], us, o)
    ensures Stretch(g, us, o, i, i) == [Last(Way(g, us, o, i))]
  {
  }

  /** A path from reference or node to the end of its fragments. */
  ghost predicate Travelled(g: Graph, fragments: seq<Fragment>, us: seq<Walk>, o: Origin) {
    && g.AttachedScopesExist() && Appended(g, fragments, us, o)
    && Passable(g, Journey(g, [us[0][0]], us, o), o)
  }

  lemma TravelledAt(g: Graph, fragments: seq<Fragment>, us: seq<Walk>, o: Origin)
    requires Travelled(g, fragments, us, o)
    ensures g.AttachedScopesExist() && |fragments| == |us| > 0 && Consecutive(g, [us[0][0]], us, o)
    ensures forall k :: 0 <= k < |us| ==> !g.Kind(us[k][0]).JumpTo? && fragments[k].StartNode() == us[k][0]
    ensures forall k :: 0 <= k < |us| ==> fragments[k].EndNode() == Last(us[k])
    ensures forall k :: 0 <= k < |us| && (k > 0 || o == Anywhere) ==> Describes(g, fragments[k], us[k])
  {
    hide Passable, Journey, Consecutive, Describes;
    forall k | 0 <= k < |us|
      ensures !g.Kind(us[k][0]).JumpTo? && fragments[k].StartNode() == us[k][0]
      ensures fragments[k].EndNode() == Last(us[k])
      ensures k > 0 || o == Anywhere ==> Describes(g, fragments[k], us[k])
    {
      AppendedAt(g, fragments, us, o, k);
    }
  }

  /** Each stretch followed by the next walk can be run, and is not stuck. */
  lemma StretchPassable(g: Graph, fragments: seq<Fragment>, us: seq<Walk>, o: Origin, i: nat, j: nat)
    requires Travelled(g, fragments, us, o) && i <= j < |us|
    ensures Consecutive(g, [us[0][0]], us, o) && Last(Stretch(g, us, o, i, j)) == us[j][0]
    ensures Passable(g, Splice(Stretch(g, us, o, i, j), us[j]), Anywhere)
    ensures Way(g, us, o, j + 1) == Settle(g, Splice(Way(g, us, o, i), Splice(Stretch(g, us, o, i, j), us[j])), o)
  {
    hide Passable, Consecutive, Settle, Stretch, Appended;
    TravelledAt(g, fragments, us, o);
    WayStep(g, us, o, j);
    PassableUpTo(g, [us[0][0]], us, j + 1, o);
    SpliceAssociative(Way(g, us, o, i), Stretch(g, us, o, i, j), us[j]);
    PassableParts(g, Way(g, us, o, i), Splice(Stretch(g, us, o, i, j), us[j]), o);
  }

  // ---------------------------------------------------------------------------------------------
  // Blocks

  /** No choice that appending these fragments one by one needs is from attached scopes. */
  ghost predicate FreeAt(g: Graph, start: NodeHandle, block: seq<Fragment>, depth: nat) {
    BlockPath(g, start, block, depth).Ok? ==> ChoosesFreely(g, BlockPath(g, start, block, depth).value)
  }

  ghost predicate AllFree(g: Graph, start: NodeHandle, block: seq<Fragment>, depth: nat) {
    forall k :: 0 <= k <= |block| ==> FreeAt(g, start, block[..k], depth)
  }

  lemma FreeFront(g: Graph, start: NodeHandle, block: seq<Fragment>, depth: nat)
    requires AllFree(g, start, block, depth) && block != []
    ensures AllFree(g, start, block[..|block| - 1], depth)
  {
    hide FreeAt;
    var front := block[..|block| - 1];
    forall k | 0 <= k <= |front|
      ensures FreeAt(g, start, front[..k], depth)
    {
      assert front[..k] == block[..k];
    }
  }

  /** The walk is the stretch, or waits for its last node at a jump. */
  ghost predicate Lags(g: Graph, w: Walk, s: Walk) {
    w == s || (g.Kind(Last(w)).JumpTo? && s == w + [Last(s)])
  }

  /** What is known of a block that has been built. */
  ghost predicate BlockAt(g: Graph, p: PartialPath, w: Walk, s: Walk) {
    && Summary(g, p, w, Anywhere) && Chosen(g, p)
    && Settle(g, w, Anywhere) == w && Passable(g, w, Anywhere) && Lags(g, w, s)
  }

  /** Where a path lags behind, it waits; choosing where to go on makes up for it. */
  lemma CaughtUp(g: Graph, p: PartialPath, w: Walk, s: Walk)
    requires BlockAt(g, p, w, s) && ChoosesFreely(g, p) && Feasible(g, s, Anywhere) && !g.Kind(Last(s)).JumpTo?
    ensures ResolveToNode(g, p, Last(s)).Ok?
    ensures var q := ResolveToNode(g, p, Last(s)).value;
            && Summary(g, q, s, Anywhere) && Chosen(g, q) && q.edges == p.edges && q.endNode == Last(s)
    ensures w != s ==> Waits(g, p)
  {
    hide Summary, Chosen, ResolveToNode, Decided, Run;
    SummaryOf(g, p, w, Anywhere);
    if w == s {
      ChoiceNotNeeded(g, p, Last(s));
    } else {
      KnownIsDecided(g, p, w, Anywhere);
      assert Waits(g, p) by {
        NotDecided(g, w);
      }
      var c :| Run(g, s, c).Some?;
      RunExtend(g, w, Last(s), c);
      ResolveToNodeExact(g, p, w, Last(s), Anywhere);
      ChoiceKeeps(g, p, Last(s));
      ChoiceKeepsPost(g, p, Last(s));
    }
  }

  lemma NotDecided(g: Graph, w: Walk)
    requires Settle(g, w, Anywhere) == w
    ensures !Decided(g, w, Anywhere)
  {
  }

  lemma ChoiceNotNeeded(g: Graph, p: PartialPath, n: NodeHandle)
    requires !g.Kind(p.endNode).JumpTo?
    ensures ResolveToNode(g, p, n) == Ok(p)
  {
  }

  lemma SettleTwice(g: Graph, w: Walk)
    requires Passable(g, Settle(g, w, Anywhere), Anywhere)
    ensures Settle(g, Settle(g, w, Anywhere), Anywhere) == Settle(g, w, Anywhere)
  {
    var v := Settle(g, w, Anywhere);
    if v != w {
      var s :| Run(g, v, s).Some?;
      RunExtend(g, w, Last(v), s);
    }
  }

  /** Appending one more fragment to a block. */
  lemma BlockStep(g: Graph, p: PartialPath, w: Walk, before: Walk, s: Walk, f: Fragment, u: Walk, o: Origin, depth: nat)
    returns (v: Walk)
    requires g.AttachedScopesExist() && depth > 0
    requires BlockAt(g, p, w, s) && ChoosesFreely(g, p) && Describes(g, f, u) && Last(s) == u[0]
    requires Passable(g, Splice(s, u), Anywhere)
    requires Last(before) == s[0] && Passable(g, Splice(before, Splice(s, u)), o)
    ensures var r := AppendFragment(g, p, f, depth);
            && r.Ok? && Summary(g, r.value, v, Anywhere) && Chosen(g, r.value)
            && Settle(g, v, Anywhere) == v && Passable(g, v, Anywhere)
            && |r.value.edges| == |p.edges| + EdgeCount(f) + |Settle(g, Splice(s, u), Anywhere)| - |Splice(s, u)|
    ensures v[0] == s[0]
    ensures var longer := Settle(g, Splice(before, Splice(s, u)), o);
            longer == Splice(before, v) || (g.Kind(Last(v)).JumpTo? && longer == Splice(before, v) + [Last(longer)])
  {
    hide Summary, Chosen, AppendFragment, ResolveToNode, Settle, Passable, Describes, ChoosesFreely, BlockAt;
    DescribedStart(g, f, u);
    StartFeasible(g, s, u);
    CaughtUp(g, p, w, s);
    var q := ResolveToNode(g, p, Last(s)).value;
    if w != s {
      AppendAfterChoice(g, p, f, depth);
    } else {
      SameEnd(g, p, w, s);
    }
    AppendFragmentSummary(g, q, s, f, u, depth, Anywhere);
    AppendedChosen(g, q, s, f, u, depth);
    v := Settle(g, Splice(s, u), Anywhere);
    SettleTwice(g, Splice(s, u));
    SettledLonger(g, before, Splice(s, u), o);
  }

  lemma SameEnd(g: Graph, p: PartialPath, w: Walk, s: Walk)
    requires BlockAt(g, p, w, s) && w == s && !g.Kind(Last(s)).JumpTo?
    ensures ResolveToNode(g, p, Last(s)) == Ok(p)
  {
    SummaryOf(g, p, w, Anywhere);
  }

  lemma StartFeasible(g: Graph, s: Walk, u: Walk)
    requires Last(s) == u[0] && Passable(g, Splice(s, u), Anywhere)
    ensures Feasible(g, s, Anywhere)
  {
    PassableParts(g, s, u, Anywhere);
  }

  /** Settling a walk by itself, it lags at most one node behind what it comes to as a part of a longer one. */
  lemma SettledLonger(g: Graph, before: Walk, u: Walk, o: Origin)
    requires Last(before) == u[0] && Passable(g, Settle(g, u, Anywhere), Anywhere)
    requires Passable(g, Splice(before, u), o)
    ensures var v, longer := Settle(g, u, Anywhere), Settle(g, Splice(before, u), o);
            longer == Splice(before, v) || (g.Kind(Last(v)).JumpTo? && longer == Splice(before, v) + [Last(longer)])
  {
    var v := Settle(g, u, Anywhere);
    if v != u {
      var t := Last(v);
      assert Splice(before, v) == Splice(before, u) + [t];
      var s :| Run(g, v, s).Some?;
      RunExtend(g, u, t, s);
      forall c | EndsWith(g, Splice(before, u), o, c)
        ensures c != [] && c[0] == t
      {
        SplicedEnds(g, before, u, o, c);
      }
      SettledOn(g, Splice(before, u), t, o);
    }
  }

  /** Fragments that come to a jump have recorded how. */
  predicate JumpsRecorded(g: Graph, fragments: seq<Fragment>) {
    forall f :: f in fragments && g.Kind(f.EndNode()).JumpTo? ==> EdgeCount(f) > 0
  }

  lemma BlockSnoc(g: Graph, start: NodeHandle, front: seq<Fragment>, f: Fragment, depth: nat)
    ensures BlockPath(g, start, front + [f], depth) ==
            match BlockPath(g, start, front, depth)
            case Err(e) => Err(e)
            case Ok(p) => AppendFragment(g, p, f, depth)
  {
    hide AppendFragment, FromNode;
    assert (front + [f])[..|front|] == front;
  }

  lemma EdgesSnoc(front: seq<Fragment>, f: Fragment)
    ensures EdgeCounts(front + [f]) == EdgeCounts(front) + EdgeCount(f)
  {
    assert (front + [f])[..|front|] == front;
  }

  lemma NoBlock(g: Graph, fragments: seq<Fragment>, us: seq<Walk>, o: Origin, i: nat, depth: nat)
    requires Travelled(g, fragments, us, o) && i < |us|
    ensures Consecutive(g, [us[0][0]], us, o)
    ensures var r := BlockPath(g, us[i][0], fragments[i..i], depth);
            && r.Ok? && BlockAt(g, r.value, [us[i][0]], Stretch(g, us, o, i, i)) && r.value.edges == []
    ensures EdgeCounts(fragments[i..i]) == 0
  {
    hide Journey, Consecutive, Stretch, Way, Chosen;
    TravelledAt(g, fragments, us, o);
    var n := us[i][0];
    FromNodeSummary(g, n);
    NodePathChosen(g, n);
    StretchNone(g, us, o, i);
    WayStep(g, us, o, i);
    StartPassable(g, FromNode(g, n).value, [n], Anywhere);
  }

  lemma WayPassable(g: Graph, fragments: seq<Fragment>, us: seq<Walk>, o: Origin, i: nat, j: nat)
    requires Travelled(g, fragments, us, o) && i <= j < |us|
    ensures Consecutive(g, [us[0][0]], us, o) && Last(Stretch(g, us, o, i, j)) == us[j][0]
    ensures Passable(g, Splice(Way(g, us, o, i), Splice(Stretch(g, us, o, i, j), us[j])), o)
  {
    hide Passable, Consecutive, Settle, Stretch, Appended;
    TravelledAt(g, fragments, us, o);
    WayStep(g, us, o, j);
    PassableUpTo(g, [us[0][0]], us, j + 1, o);
    SpliceAssociative(Way(g, us, o, i), Stretch(g, us, o, i, j), us[j]);
  }

  /** The stretch up to `j`, by what it comes to after the walk before. */
  lemma StretchEnd(g: Graph, us: seq<Walk>, o: Origin, i: nat, j: nat, v: Walk)
    requires us != [] && i < j <= |us| && Consecutive(g, [us[0][0]], us, o)
    requires v[0] == Last(Way(g, us, o, i))
    requires var longer := Way(g, us, o, j);
             longer == Splice(Way(g, us, o, i), v) ||
             (g.Kind(Last(v)).JumpTo? && longer == Splice(Way(g, us, o, i), v) + [Last(longer)])
    ensures Lags(g, v, Stretch(g, us, o, i, j))
  {
    hide Way, Consecutive;
    WayGrows(g, us, o, i, j);
    var before, longer := Way(g, us, o, i), Way(g, us, o, j);
    var s := Stretch(g, us, o, i, j);
    assert Splice(before, s) == longer;
    assert s == longer[|before| - 1..];
    if longer == Splice(before, v) {
      assert longer[|before| - 1..] == v;
    } else {
      assert longer[|before| - 1..] == v + [Last(longer)];
    }
  }

  lemma EdgesCounted(g: Graph, fragments: seq<Fragment>, i: nat, j: nat, before: nat, after: nat, u: Walk)
    requires i < j <= |fragments| && JumpsRecorded(g, fragments) && fragments[j - 1].EndNode() == Last(u)
    requires before == 0 <==> EdgeCounts(fragments[i..j - 1]) == 0
    requires before + EdgeCount(fragments[j - 1]) <= after
    requires !g.Kind(Last(u)).JumpTo? ==> after == before + EdgeCount(fragments[j - 1])
    ensures after == 0 <==> EdgeCounts(fragments[i..j]) == 0
  {
    assert fragments[i..j] == fragments[i..j - 1] + [fragments[j - 1]];
    EdgesSnoc(fragments[i..j - 1], fragments[j - 1]);
    assert fragments[j - 1] in fragments;
  }

  /**
   A block of fragments that describe their walks is built without error, if all choices are free, and summarises
   its stretch of the way, or waits one node before its end.
   */
  lemma {:induction false} ChosenBlockBuilds(g: Graph, fragments: seq<Fragment>, us: seq<Walk>, o: Origin, i: nat,
                                             j: nat, depth: nat) returns (w: Walk)
    requires Travelled(g, fragments, us, o) && depth > 0 && i <= j <= |us| && i < |us| && (i > 0 || o == Anywhere)
    requires AllFree(g, us[i][0], fragments[i..j], depth)
    ensures Consecutive(g, [us[0][0]], us, o)
    ensures var r := BlockPath(g, us[i][0], fragments[i..j], depth);
            && r.Ok? && BlockAt(g, r.value, w, Stretch(g, us, o, i, j))
            && (JumpsRecorded(g, fragments) ==> (r.value.edges == [] <==> EdgeCounts(fragments[i..j]) == 0))
    decreases j
  {
    hide Travelled, Summary, Chosen, Settle, Passable, Describes, ChoosesFreely, AppendFragment, BlockPath, Consecutive,
      Stretch, Way, JumpsRecorded, EdgeCounts, Lags;
    TravelledAt(g, fragments, us, o);
    if i == j {
      w := [us[i][0]];
      NoBlock(g, fragments, us, o, i, depth);
    } else {
      var front, f := fragments[i..j - 1], fragments[j - 1];
      assert fragments[i..j][..|front|] == front && fragments[i..j][|front|] == f;
      FreeFront(g, us[i][0], fragments[i..j], depth);
      var v := ChosenBlockBuilds(g, fragments, us, o, i, j - 1, depth);
      var p := BlockPath(g, us[i][0], front, depth).value;
      assert FreeAt(g, us[i][0], fragments[i..j][..|front|], depth);
      StretchPassable(g, fragments, us, o, i, j - 1);
      var s := Stretch(g, us, o, i, j - 1);
      WayPassable(g, fragments, us, o, i, j - 1);
      w := BlockStep(g, p, v, Way(g, us, o, i), s, f, us[j - 1], o, depth);
      StretchEnd(g, us, o, i, j, w);
      BlockSnoc(g, us[i][0], front, f, depth);
      assert fragments[i..j] == front + [f];
      if JumpsRecorded(g, fragments) {
        var after := BlockPath(g, us[i][0], fragments[i..j], depth).value;
        EdgesCounted(g, fragments, i, j, |p.edges|, |after.edges|, us[j - 1]);
      }
    }
  }
}
