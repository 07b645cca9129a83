/**
 Nodes that cannot take part in a path that leaves their file: the ends of stored partial paths that no
 chain of stored partial paths connects to the root node or the jump to node, in either direction.
 */
module LocalNodes {
  import opened Wrappers
  import opened Graphs
  import opened PartialPaths

  /** The handles of the two singleton nodes. */
  const ROOT: NodeHandle := 1
  const JUMP_TO: NodeHandle := 2

  ghost predicate Connects(paths: seq<PartialPath>, a: NodeHandle, b: NodeHandle) {
    exists p :: p in paths && p.startNode == a && p.endNode == b
  }

  /** A chain of `k` partial paths leads from `a` to `b`. */
  ghost predicate ReachesIn(paths: seq<PartialPath>, a: NodeHandle, b: NodeHandle, k: nat)
    decreases k
  {
    if k == 0 then a == b
    else exists m :: ReachesIn(paths, a, m, k - 1) && Connects(paths, m, b)
  }

  ghost predicate Reaches(paths: seq<PartialPath>, a: NodeHandle, b: NodeHandle) {
    exists k: nat :: ReachesIn(paths, a, b, k)
  }

  ghost predicate ReachedFromOutside(paths: seq<PartialPath>, n: NodeHandle) {
    Reaches(paths, ROOT, n) || Reaches(paths, JUMP_TO, n)
  }

  ghost predicate ReachesOutside(paths: seq<PartialPath>, n: NodeHandle) {
    Reaches(paths, n, ROOT) || Reaches(paths, n, JUMP_TO)
  }

  function Ends(paths: seq<PartialPath>): set<NodeHandle> {
    if paths == [] then {}
    else Ends(paths[..|paths| - 1]) + {paths[|paths| - 1].startNode, paths[|paths| - 1].endNode}
  }

  lemma {:induction false} EndsOf(paths: seq<PartialPath>, n: NodeHandle)
    ensures n in Ends(paths) <==> exists p :: p in paths && (p.startNode == n || p.endNode == n)
  {
    if paths != [] {
      EndsOf(paths[..|paths| - 1], n);
      assert paths == paths[..|paths| - 1] + [paths[|paths| - 1]];
    }
  }

  /** The local nodes, by definition. */
  ghost function LocalNodesOf(paths: seq<PartialPath>): set<NodeHandle> {
    set n | n in Ends(paths) && !ReachedFromOutside(paths, n) && !ReachesOutside(paths, n)
  }

  // ---------------------------------------------------------------------------------------------

  ghost predicate StartsOutside(paths: seq<PartialPath>, s: set<NodeHandle>) {
    ROOT in s && JUMP_TO in s && forall n :: n in s ==> ReachedFromOutside(paths, n)
  }

  ghost predicate EndsOutside(paths: seq<PartialPath>, s: set<NodeHandle>) {
    ROOT in s && JUMP_TO in s && forall n :: n in s ==> ReachesOutside(paths, n)
  }

  lemma ReachesItself(paths: seq<PartialPath>, n: NodeHandle)
    ensures Reaches(paths, n, n)
  {
    assert ReachesIn(paths, n, n, 0);
  }

  lemma ReachesOn(paths: seq<PartialPath>, p: PartialPath, n: NodeHandle)
    requires p in paths && Reaches(paths, n, p.startNode)
    ensures Reaches(paths, n, p.endNode)
  {
    var k: nat :| ReachesIn(paths, n, p.startNode, k);
    assert Connects(paths, p.startNode, p.endNode);
    assert ReachesIn(paths, n, p.endNode, k + 1);
  }

  lemma ReachesBack(paths: seq<PartialPath>, p: PartialPath, n: NodeHandle)
    requires p in paths && Reaches(paths, p.endNode, n)
    ensures Reaches(paths, p.startNode, n)
  {
    var k: nat :| ReachesIn(paths, p.endNode, n, k);
    assert Connects(paths, p.startNode, p.endNode);
    ReachesInFrom(paths, p.startNode, p.endNode, n, k);
  }

  lemma {:induction false} ReachesInFrom(paths: seq<PartialPath>, a: NodeHandle, b: NodeHandle, c: NodeHandle, k: nat)
    requires Connects(paths, a, b) && ReachesIn(paths, b, c, k)
    ensures ReachesIn(paths, a, c, k + 1)
    decreases k
  {
    if k == 0 {
      assert ReachesIn(paths, a, a, 0);
    } else {
      var m :| ReachesIn(paths, b, m, k - 1) && Connects(paths, m, c);
      ReachesInFrom(paths, a, b, m, k - 1);
    }
  }

  predicate ClosedForwards(paths: seq<PartialPath>, s: set<NodeHandle>, k: nat)
    requires k <= |paths|
  {
    forall i :: 0 <= i < k && paths[i].startNode in s ==> paths[i].endNode in s
  }

  predicate ClosedBackwards(paths: seq<PartialPath>, s: set<NodeHandle>, k: nat)
    requires k <= |paths|
  {
    forall i :: 0 <= i < k && paths[i].endNode in s ==> paths[i].startNode in s
  }

  /** A set closed under the paths holds whatever can be reached from it. */
  lemma {:induction false} ClosedHoldsReached(paths: seq<PartialPath>, s: set<NodeHandle>, a: NodeHandle,
                                              b: NodeHandle, k: nat)
    requires ClosedForwards(paths, s, |paths|) && ReachesIn(paths, a, b, k) && a in s
    ensures b in s
    decreases k
  {
    if k > 0 {
      var m :| ReachesIn(paths, a, m, k - 1) && Connects(paths, m, b);
      ClosedHoldsReached(paths, s, a, m, k - 1);
    }
  }

  lemma {:induction false} ClosedHoldsReaching(paths: seq<PartialPath>, s: set<NodeHandle>, a: NodeHandle,
                                               b: NodeHandle, k: nat)
    requires ClosedBackwards(paths, s, |paths|) && ReachesIn(paths, a, b, k) && b in s
    ensures a in s
    decreases k
  {
    if k > 0 {
      var m :| ReachesIn(paths, a, m, k - 1) && Connects(paths, m, b);
      ClosedHoldsReaching(paths, s, a, m, k - 1);
    }
  }

  lemma ClosedHoldsAllReached(paths: seq<PartialPath>, s: set<NodeHandle>, n: NodeHandle)
    requires StartsOutside(paths, s) && ClosedForwards(paths, s, |paths|)
    ensures n in s <==> ReachedFromOutside(paths, n)
  {
    hide ClosedForwards, ReachesIn;
    if Reaches(paths, ROOT, n) {
      var k: nat :| ReachesIn(paths, ROOT, n, k);
      ClosedHoldsReached(paths, s, ROOT, n, k);
    } else if Reaches(paths, JUMP_TO, n) {
      var k: nat :| ReachesIn(paths, JUMP_TO, n, k);
      ClosedHoldsReached(paths, s, JUMP_TO, n, k);
    }
  }

  lemma ClosedHoldsAllReaching(paths: seq<PartialPath>, s: set<NodeHandle>, n: NodeHandle)
    requires EndsOutside(paths, s) && ClosedBackwards(paths, s, |paths|)
    ensures n in s <==> ReachesOutside(paths, n)
  {
    hide ClosedBackwards, ReachesIn;
    if Reaches(paths, n, ROOT) {
      var k: nat :| ReachesIn(paths, n, ROOT, k);
      ClosedHoldsReaching(paths, s, n, ROOT, k);
    } else if Reaches(paths, n, JUMP_TO) {
      var k: nat :| ReachesIn(paths, n, JUMP_TO, k);
      ClosedHoldsReaching(paths, s, n, JUMP_TO, k);
    }
  }

  /** At the fixed point, the local nodes are the ends outside both sets. */
  lemma FixedPoint(paths: seq<PartialPath>, starts: set<NodeHandle>, ends: set<NodeHandle>)
    requires StartsOutside(paths, starts) && ClosedForwards(paths, starts, |paths|)
    requires EndsOutside(paths, ends) && ClosedBackwards(paths, ends, |paths|)
    ensures LocalNodesOf(paths) == Ends(paths) - starts - ends
  {
    hide ClosedForwards, ClosedBackwards, Reaches, StartsOutside, EndsOutside;
    forall n | n in Ends(paths)
      ensures n in starts <==> ReachedFromOutside(paths, n)
      ensures n in ends <==> ReachesOutside(paths, n)
    {
      ClosedHoldsAllReached(paths, starts, n);
      ClosedHoldsAllReaching(paths, ends, n);
    }
  }

  class LocalNodeFinder {
    var partialPaths: seq<PartialPath>
    var localNodes: set<NodeHandle>

    /** Repeats sweeps over all paths until one of them changes nothing. */
    method FindLocalNodes()
      modifies this`localNodes
      ensures localNodes == LocalNodesOf(partialPaths)
    {
      var paths := partialPaths;
      localNodes := {};
      for i := 0 to |paths|
        invariant localNodes == Ends(paths[..i])
      {
        localNodes := localNodes + {paths[i].startNode};
        localNodes := localNodes + {paths[i].endNode};
        assert paths[..i + 1][..i] == paths[..i];
      }
      assert paths[..|paths|] == paths;
      var nonlocalStarts, nonlocalEnds := {}, {};
      localNodes := localNodes - {ROOT};
      nonlocalStarts := nonlocalStarts + {ROOT};
      nonlocalEnds := nonlocalEnds + {ROOT};
      localNodes := localNodes - {JUMP_TO};
      nonlocalStarts := nonlocalStarts + {JUMP_TO};
      nonlocalEnds := nonlocalEnds + {JUMP_TO};
      ReachesItself(paths, ROOT);
      ReachesItself(paths, JUMP_TO);
      var keepChecking := true;
      while keepChecking
        invariant localNodes == Ends(paths) - nonlocalStarts - nonlocalEnds
        invariant StartsOutside(paths, nonlocalStarts) && EndsOutside(paths, nonlocalEnds)
        invariant !keepChecking ==> ClosedForwards(paths, nonlocalStarts, |paths|)
        invariant !keepChecking ==> ClosedBackwards(paths, nonlocalEnds, |paths|)
        decreases Unmarked(paths, nonlocalStarts, nonlocalEnds), keepChecking
      {
        nonlocalStarts, nonlocalEnds, keepChecking := Sweep(nonlocalStarts, nonlocalEnds);
      }
      FixedPoint(paths, nonlocalStarts, nonlocalEnds);
    }

    /** Lets every path hand on, once, that a node is connected to the outside. */
    method Sweep(starts: set<NodeHandle>, ends: set<NodeHandle>)
      returns (nonlocalStarts: set<NodeHandle>, nonlocalEnds: set<NodeHandle>, changed: bool)
      requires StartsOutside(partialPaths, starts) && EndsOutside(partialPaths, ends)
      requires localNodes == Ends(partialPaths) - starts - ends
      modifies this`localNodes
      ensures StartsOutside(partialPaths, nonlocalStarts) && EndsOutside(partialPaths, nonlocalEnds)
      ensures localNodes == Ends(partialPaths) - nonlocalStarts - nonlocalEnds
      ensures if changed then Unmarked(partialPaths, nonlocalStarts, nonlocalEnds) <
                              Unmarked(partialPaths, starts, ends)
              else nonlocalStarts == starts && nonlocalEnds == ends &&
                   ClosedForwards(partialPaths, starts, |partialPaths|) &&
                   ClosedBackwards(partialPaths, ends, |partialPaths|)
    {
      hide StartsOutside, EndsOutside;
      var paths := partialPaths;
      nonlocalStarts, nonlocalEnds, changed := starts, ends, false;
      for i := 0 to |paths|
        invariant localNodes == Ends(paths) - nonlocalStarts - nonlocalEnds
        invariant StartsOutside(paths, nonlocalStarts) && EndsOutside(paths, nonlocalEnds)
        invariant if changed then Unmarked(paths, nonlocalStarts, nonlocalEnds) < Unmarked(paths, starts, ends)
                  else nonlocalStarts == starts && nonlocalEnds == ends &&
                       ClosedForwards(paths, starts, i) && ClosedBackwards(paths, ends, i)
      {
        var start, end := paths[i].startNode, paths[i].endNode;
        EndsOf(paths, start);
        EndsOf(paths, end);
        if start in nonlocalStarts && end !in nonlocalStarts {
          changed := true;
          Propagated(paths, paths[i], nonlocalStarts);
          nonlocalStarts := nonlocalStarts + {end};
          localNodes := localNodes - {end};
        }
        if start !in nonlocalEnds && end in nonlocalEnds {
          changed := true;
          PropagatedBack(paths, paths[i], nonlocalEnds);
          nonlocalEnds := nonlocalEnds + {start};
          localNodes := localNodes - {start};
        }
      }
    }
  }

  /** How many marks the sweeps can still set. */
  ghost function Unmarked(paths: seq<PartialPath>, starts: set<NodeHandle>, ends: set<NodeHandle>): nat {
    |Ends(paths) - starts| + |Ends(paths) - ends|
  }

  lemma Shrinks(all: set<NodeHandle>, s: set<NodeHandle>, n: NodeHandle)
    requires n in all && n !in s
    ensures |all - (s + {n})| < |all - s|
  {
    assert all - (s + {n}) == all - s - {n};
  }

  lemma Propagated(paths: seq<PartialPath>, p: PartialPath, s: set<NodeHandle>)
    requires p in paths && StartsOutside(paths, s) && p.startNode in s && p.endNode !in s && p.endNode in Ends(paths)
    ensures StartsOutside(paths, s + {p.endNode})
    ensures |Ends(paths) - (s + {p.endNode})| < |Ends(paths) - s|
  {
    if Reaches(paths, ROOT, p.startNode) {
      ReachesOn(paths, p, ROOT);
    } else {
      ReachesOn(paths, p, JUMP_TO);
    }
    Shrinks(Ends(paths), s, p.endNode);
  }

  lemma PropagatedBack(paths: seq<PartialPath>, p: PartialPath, s: set<NodeHandle>)
    requires p in paths && EndsOutside(paths, s) && p.endNode in s && p.startNode !in s && p.startNode in Ends(paths)
    ensures EndsOutside(paths, s + {p.startNode})
    ensures |Ends(paths) - (s + {p.startNode})| < |Ends(paths) - s|
  {
    if Reaches(paths, p.endNode, ROOT) {
      ReachesBack(paths, p, ROOT);
    } else {
      ReachesBack(paths, p, JUMP_TO);
    }
    Shrinks(Ends(paths), s, p.startNode);
  }
}
