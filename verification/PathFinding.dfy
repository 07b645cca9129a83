/**
 The two searches: for the complete paths from a set of references, and for the minimal set of partial
 paths in a file.  Both run phases until nothing is left to do; whether that ever happens is not known, so
 they give up when `patience`, the number of phases that the caller puts up with, is spent.  They also end
 when the cycle check panics: never in the search of a file, but in the search for complete paths it happens,
 as `PanickingSearch` shows.
 */
module PathFinding {
  import opened Wrappers
  import opened Graphs
  import opened Unification
  import opened PartialPaths
  import opened Exactness
  import opened AppendExactness
  import opened Settling
  import opened Stitching
  import opened CycleDetection
  import opened ChosenCycles
  import Complete = CompletePaths
  import opened SimilarPaths
  import opened Worklists
  import opened Stitcher
  import opened SearchCoverage
  import opened MinimalPathSet
  import opened SegmentSearch
  import opened SegmentCoverage

  /** How a search can end early. */
  datatype Stop = Cancelled | Panicked

  /** The paths among the items that satisfy `accept`, in order. */
  function Accepted(items: seq<Item>, accept: PartialPath -> bool): seq<PartialPath> {
    if items == [] then []
    else
      var last := items[|items| - 1].path;
      Accepted(items[..|items| - 1], accept) + if accept(last) then [last] else []
  }

  lemma {:induction false} AcceptedConcat(a: seq<Item>, b: seq<Item>, accept: PartialPath -> bool)
    ensures Accepted(a + b, accept) == Accepted(a, accept) + Accepted(b, accept)
    decreases |b|
  {
    if b == [] {
      assert a + b == a;
    } else {
      assert (a + b)[..|a + b| - 1] == a + b[..|b| - 1];
      AcceptedConcat(a, b[..|b| - 1], accept);
    }
  }

  lemma {:induction false} AcceptedFrom(items: seq<Item>, accept: PartialPath -> bool, p: PartialPath)
    ensures p in Accepted(items, accept) <==> accept(p) && exists i :: 0 <= i < |items| && items[i].path == p
  {
    if items != [] {
      AcceptedFrom(items[..|items| - 1], accept, p);
    }
  }

  /** Visits the accepted paths that a phase has found. */
  method VisitPhase(found: seq<Item>, accept: PartialPath -> bool) returns (visited: seq<PartialPath>)
    ensures visited == Accepted(found, accept)
  {
    visited := [];
    for i := 0 to |found|
      invariant visited == Accepted(found[..i], accept)
    {
      assert found[..i + 1][..i] == found[..i];
      if accept(found[i].path) {
        visited := visited + [found[i].path];
      }
    }
    assert found[..|found|] == found;
  }

  /** The cycle check panics in none of the steps. */
  ghost predicate NeverPanicsIn(c: Search, f: Fifo<Seen, Item>, n: nat) {
    forall k: nat :: k < n ==> !PanicsAt(c, f, k)
  }

  lemma PanicsCompose(c: Search, f: Fifo<Seen, Item>, n: nat, k: nat)
    ensures PanicsAt(c, f, n + k) <==> PanicsAt(c, Steps(RulesOf(c), f, n), k)
  {
    hide RulesOf, Worklists.Step, CheckFails;
    StepsCompose(RulesOf(c), f, n, k);
  }

  lemma PhaseNeverPanics(c: Search, f: Fifo<Seen, Item>, n: nat, steps: nat)
    requires NeverPanicsIn(c, f, n) && NeverPanicsIn(c, Steps(RulesOf(c), f, n), steps)
    ensures NeverPanicsIn(c, f, n + steps)
  {
    hide PanicsAt;
    forall k: nat | n <= k < n + steps
      ensures !PanicsAt(c, f, k)
    {
      PanicsCompose(c, f, n, k - n);
    }
  }

  /** The cycle check panics in the last of the `n` steps, and in none before. */
  ghost predicate PanicsFirstAt(c: Search, f: Fifo<Seen, Item>, n: nat) {
    n > 0 && PanicsAt(c, f, n - 1) && NeverPanicsIn(c, f, n - 1)
  }

  /** After at least one step for each phase that the caller puts up with, there is something left to do. */
  ghost predicate OutOfPatience(c: Search, f: Fifo<Seen, Item>, n: nat, patience: nat) {
    n >= patience && Steps(RulesOf(c), f, n).pending != [] && NeverPanicsIn(c, f, n)
  }

  /** The run is complete after so many steps, and never panics. */
  ghost predicate EndsWithin(c: Search, f: Fifo<Seen, Item>, patience: nat) {
    (exists m: nat :: m <= patience && SearchCoverage.IsComplete(c, f, m)) && forall k: nat :: !PanicsAt(c, f, k)
  }

  lemma StillPending(c: Search, f: Fifo<Seen, Item>, n: nat, patience: nat)
    requires n >= patience && Steps(RulesOf(c), f, n).pending != []
    ensures !EndsWithin(c, f, patience)
  {
    hide RulesOf, Worklists.Step, PanicsAt;
    if EndsWithin(c, f, patience) {
      var m: nat :| m <= patience && SearchCoverage.IsComplete(c, f, m);
      StaysComplete(RulesOf(c), f, m, n);
    }
  }

  lemma PanicsInTheEnd(c: Search, f: Fifo<Seen, Item>, k: nat, patience: nat)
    requires PanicsAt(c, f, k)
    ensures !EndsWithin(c, f, patience)
  {
    hide PanicsAt;
  }

  /** Runs phases to the end, visiting accepted paths: all those that the worklist discovers, each time once. */
  method RunPhases(stitcher: ForwardPartialPathStitcher, c: Search, accept: PartialPath -> bool, patience: nat)
    returns (r: Result<seq<PartialPath>, Stop>, ghost n: nat)
    requires Sensible(c) && stitcher.Valid(c)
    modifies stitcher, stitcher.similar
    ensures r.Ok? ==> SearchCoverage.IsComplete(c, old(stitcher.View()), n)
    ensures r.Ok? ==> r.value == Accepted(Discovered(RulesOf(c), old(stitcher.View()), n), accept)
    ensures r.Ok? ==> NeverPanicsIn(c, old(stitcher.View()), n)
    ensures r == Err(Panicked) ==> PanicsFirstAt(c, old(stitcher.View()), n)
    ensures r == Err(Cancelled) ==> OutOfPatience(c, old(stitcher.View()), n, patience)
    ensures EndsWithin(c, old(stitcher.View()), patience) ==> r.Ok?
  {
    hide Orderly, RulesOf, Sensible, Worklists.Step, Added, PanicsAt, EndsWithin, PhaseOf;
    var visited: seq<PartialPath> := [];
    var left := patience;
    ghost var start := stitcher.View();
    ghost var rules := RulesOf(c);
    n := 0;
    while !stitcher.IsComplete()
      invariant stitcher.Valid(c) && stitcher.View() == Steps(rules, start, n)
      invariant visited == Accepted(Discovered(rules, start, n), accept)
      invariant NeverPanicsIn(c, start, n)
      invariant n + left >= patience
      decreases left
    {
      if left == 0 {
        StillPending(c, start, n, patience);
        return Err(Cancelled), n;
      }
      left := left - 1;
      var panicked, steps, asked := stitcher.ProcessNextPhase(c);
      if panicked {
        PhaseNeverPanics(c, start, n, steps - 1);
        PanicsCompose(c, start, n, steps - 1);
        PanicsInTheEnd(c, start, n + steps - 1, patience);
        return Err(Panicked), n + steps;
      }
      PhaseNeverPanics(c, start, n, steps);
      var more := VisitPhase(stitcher.nextIteration, accept);
      AcceptedConcat(Discovered(rules, start, n), stitcher.nextIteration, accept);
      StepsCompose(rules, start, n, steps);
      visited := visited + more;
      n := n + steps;
    }
    return Ok(visited), n;
  }

  // ---------------------------------------------------------------------------------------------
  // Complete paths

  /** A search for complete paths: from references, with empty stacks, every path extended, cycles checked at joins. */
  ghost predicate SeeksCompletePaths(c: Search) {
    && c.origin == Nowhere && c.onlyJoins
    && (forall p :: c.extendWhile(p))
    && (forall n :: c.mayStartAt(n) <==> c.g.Kind(n).IsReference())
  }

  /** The initial path of a reference. */
  function ReferenceStart(g: Graph, n: NodeHandle): PartialPath {
    var p := ReferencePath(g, n);
    if p.Ok? then p.value else Blank(n)
  }

  lemma ReferenceInitial(c: Search, n: NodeHandle)
    requires c.g.AttachedScopesExist() && SeeksCompletePaths(c) && c.g.Kind(n).IsReference()
    ensures ReferencePath(c.g, n) == Ok(ReferenceStart(c.g, n)) && IsInitial(c, ReferenceStart(c.g, n))
    ensures ReferenceStart(c.g, n).startNode == n
  {
    InitialSummary(c.g, n, Nowhere);
  }

  /** The initial paths of the references among the nodes. */
  function ReferenceStarts(g: Graph, nodes: seq<NodeHandle>): seq<PartialPath> {
    if nodes == [] then []
    else
      var n := nodes[|nodes| - 1];
      ReferenceStarts(g, nodes[..|nodes| - 1]) + if g.Kind(n).IsReference() then [ReferenceStart(g, n)] else []
  }

  method ReferencePaths(c: Search, nodes: seq<NodeHandle>) returns (paths: seq<PartialPath>)
    requires c.g.AttachedScopesExist() && SeeksCompletePaths(c)
    ensures paths == ReferenceStarts(c.g, nodes)
  {
    hide IsInitial, ReferencePath, ReferenceStart;
    paths := [];
    for i := 0 to |nodes|
      invariant paths == ReferenceStarts(c.g, nodes[..i])
    {
      assert nodes[..i + 1][..i] == nodes[..i];
      if c.g.Kind(nodes[i]).IsReference() {
        ReferenceInitial(c, nodes[i]);
        var p := ReferencePath(c.g, nodes[i]);
        paths := paths + [p.value];
      }
    }
    assert nodes[..|nodes|] == nodes;
  }

  lemma {:induction false} ReferenceStartsInitial(c: Search, nodes: seq<NodeHandle>)
    requires c.g.AttachedScopesExist() && SeeksCompletePaths(c)
    ensures forall p :: p in ReferenceStarts(c.g, nodes) ==> IsInitial(c, p) && p.startNode in nodes
    ensures forall n :: n in nodes && c.g.Kind(n).IsReference() ==>
            ReferenceStart(c.g, n) in ReferenceStarts(c.g, nodes)
  {
    hide IsInitial, ReferencePath, ReferenceStart;
    if nodes != [] {
      var front, n := nodes[..|nodes| - 1], nodes[|nodes| - 1];
      assert nodes == front + [n];
      ReferenceStartsInitial(c, front);
      if c.g.Kind(n).IsReference() {
        ReferenceInitial(c, n);
      }
    }
  }

  /**
   The path is stitched from reference `n` with these candidates, which stand for these walks; it relates
   exactly what their journey relates on empty stacks, and that journey resolves the reference.
   */
  ghost predicate Resolution(c: Search, p: PartialPath, n: NodeHandle, fragments: seq<Fragment>, us: seq<Walk>) {
    && c.g.Kind(n).IsReference() && CandidateChain(c, ReferenceStart(c.g, n), fragments)
    && Stitch(c.g, ReferenceStart(c.g, n), fragments, c.depth) == Ok(p)
    && DescribeAll(c.g, fragments, us) && Consecutive(c.g, [n], us, Nowhere)
    && Denotes(c.g, p, Journey(c.g, [n], us, Nowhere), Nowhere)
    && Complete.Resolves(c.g, Journey(c.g, [n], us, Nowhere))
  }

  ghost predicate IsResolution(c: Search, nodes: seq<NodeHandle>, p: PartialPath) {
    exists n, fragments, us :: n in nodes && Resolution(c, p, n, fragments, us)
  }

  /** Sound: every path is the outcome of resolving one of the references. */
  ghost predicate OnlyResolutions(c: Search, nodes: seq<NodeHandle>, visited: seq<PartialPath>) {
    forall p :: p in visited ==> IsResolution(c, nodes, p)
  }

  /** The fragments are candidates, one after the other, and lead from the reference to a complete path. */
  ghost predicate LeadsToDefinition(c: Search, n: NodeHandle, fragments: seq<Fragment>) {
    && CandidateChain(c, ReferenceStart(c.g, n), fragments) && fragments != []
    && Stitch(c.g, ReferenceStart(c.g, n), fragments, c.depth).Ok?
    && Complete.IsComplete(c.g, Stitch(c.g, ReferenceStart(c.g, n), fragments, c.depth).value)
  }

  ghost predicate CoversResolution(c: Search, f: Fifo<Seen, Item>, n: nat, visited: seq<PartialPath>,
                                   node: NodeHandle, fragments: seq<Fragment>) {
    || CutOff(c, f, n, [PathFragment(ReferenceStart(c.g, node))] + fragments)
    || exists p :: p in visited && Stitch(c.g, ReferenceStart(c.g, node), fragments, c.depth) == Ok(p)
  }

  /** Covering: whatever the candidates can be stitched to that is complete is visited, unless a check cuts it off. */
  ghost predicate AllResolutions(c: Search, f: Fifo<Seen, Item>, n: nat, nodes: seq<NodeHandle>,
                                 visited: seq<PartialPath>)
  {
    forall node, fragments ::
      node in nodes && c.g.Kind(node).IsReference() && LeadsToDefinition(c, node, fragments) ==>
        CoversResolution(c, f, n, visited, node, fragments)
  }

  /**
   The path at the front after `k` steps has a cycle that passes a jump; and, with any room on the call stack, one
   where a target is chosen from attached scopes, or whose postcondition has lost a variable.
   */
  ghost predicate FrontGoesWrong(c: Search, f: Fifo<Seen, Item>, k: nat) {
    var pending := Steps(RulesOf(c), f, k).pending;
    && pending != [] && !CyclesAvoidJumps(c.g, pending[0].fragments)
    && (c.depth > 0 ==> !CyclesSound(c.g, pending[0].fragments, c.depth))
  }

  lemma PanicsAtJumps(c: Search, f: Fifo<Seen, Item>, k: nat)
    requires Sensible(c) && Orderly(c, f) && PanicsAt(c, f, k)
    ensures FrontGoesWrong(c, f, k)
  {
    hide Sensible, Tracked, CheckFails, CyclesAvoidJumps, CyclesSound, RulesOf, Discovered;
    SensibleScopes(c);
    RunsOrderly(c, f, k);
    CheckFailsAtJumps(c, Steps(RulesOf(c), f, k).pending[0]);
  }

  /** The `n` steps of worklist `f` are the run that the search makes. */
  method FindAllCompletePartialPaths(c: Search, startingNodes: seq<NodeHandle>, detectSimilar: bool, maxWork: nat,
                                     patience: nat)
    returns (r: Result<seq<PartialPath>, Stop>, ghost f: Fifo<Seen, Item>, ghost n: nat)
    requires Sensible(c) && SeeksCompletePaths(c)
    ensures f == Start(ReferenceStarts(c.g, startingNodes), detectSimilar)
    ensures r.Ok? ==> OnlyResolutions(c, startingNodes, r.value)
    ensures r.Ok? ==> WholeRun(c, f, n) && AllResolutions(c, f, n, startingNodes, r.value)
    ensures r.Ok? ==> NeverPanicsIn(c, f, n)
    ensures r.Ok? ==> r.value == Accepted(Discovered(RulesOf(c), f, n), (p: PartialPath) => Complete.IsComplete(c.g, p))
    ensures r == Err(Panicked) ==> PanicsFirstAt(c, f, n) && FrontGoesWrong(c, f, n - 1)
    ensures r == Err(Cancelled) ==> OutOfPatience(c, f, n, patience)
    ensures EndsWithin(c, f, patience) ==> r.Ok?
  {
    hide Sensible, IsResolution, AllResolutions, IsInitial, Stitched, ReferenceStart, ReferenceStarts,
      SearchCoverage.IsComplete, Tracked, PanicsAt, FrontGoesWrong, NeverPanicsIn, OutOfPatience, EndsWithin;
    SensibleScopes(c);
    var initial := ReferencePaths(c, startingNodes);
    ReferenceStartsInitial(c, startingNodes);
    StartWhole(c, initial, detectSimilar);
    var stitcher := new ForwardPartialPathStitcher(initial, detectSimilar, maxWork, c);
    f := stitcher.View();
    assert Orderly(c, f);
    r, n := RunPhases(stitcher, c, (p: PartialPath) => Complete.IsComplete(c.g, p), patience);
    if r.Ok? {
      VisitedResolve(c, f, n, initial, detectSimilar, startingNodes);
      AllResolved(c, f, n, initial, detectSimilar, startingNodes);
    } else if r.error == Panicked {
      PanicsAtJumps(c, f, n - 1);
    }
  }

  lemma VisitedResolve(c: Search, f: Fifo<Seen, Item>, n: nat, initial: seq<PartialPath>, detectSimilar: bool,
                       nodes: seq<NodeHandle>)
    requires Sensible(c) && SeeksCompletePaths(c) && Orderly(c, f) && f == Start(initial, detectSimilar)
    requires forall p :: p in initial ==> p.startNode in nodes
    ensures OnlyResolutions(c, nodes,
                            Accepted(Discovered(RulesOf(c), f, n), (p: PartialPath) => Complete.IsComplete(c.g, p)))
  {
    hide Sensible, IsResolution, RulesOf, Orderly, Tracked, HasRoot, Discovered;
    SensibleScopes(c);
    var found := Discovered(RulesOf(c), f, n);
    RunsOrderly(c, f, n);
    RunRooted(c, f, n);
    forall p | p in Accepted(found, (q: PartialPath) => Complete.IsComplete(c.g, q))
      ensures IsResolution(c, nodes, p)
    {
      AcceptedFrom(found, (q: PartialPath) => Complete.IsComplete(c.g, q), p);
      var i :| 0 <= i < |found| && found[i].path == p;
      assert found[i] in All(c, f, n);
      StartsAmong(c, initial, detectSimilar, nodes, found[i]);
      CompleteResolves(c, nodes, found[i]);
    }
  }

  lemma StartsAmong(c: Search, initial: seq<PartialPath>, detectSimilar: bool, nodes: seq<NodeHandle>, item: Item)
    requires HasRoot(item, Start(initial, detectSimilar).pending)
    requires forall p :: p in initial ==> p.startNode in nodes
    ensures item.fragments != [] && item.fragments[0].StartNode() in nodes
  {
    var pending := Start(initial, detectSimilar).pending;
    var j :| j in pending && j.fragments != [] && item.fragments != [] && j.fragments[0] == item.fragments[0];
    var i :| 0 <= i < |pending| && pending[i] == j;
    assert initial[i] in initial;
  }

  lemma AllResolved(c: Search, f: Fifo<Seen, Item>, n: nat, initial: seq<PartialPath>, detectSimilar: bool,
                    nodes: seq<NodeHandle>)
    requires WholeRun(c, f, n) && f == Start(initial, detectSimilar)
    requires forall node :: node in nodes && c.g.Kind(node).IsReference() ==> ReferenceStart(c.g, node) in initial
    ensures AllResolutions(c, f, n, nodes, Accepted(Discovered(RulesOf(c), f, n),
                                                    (p: PartialPath) => Complete.IsComplete(c.g, p)))
  {
    hide WholeRun, LeadsToDefinition, CoversResolution, ReferenceStart, RulesOf, Accepted;
    var visited := Accepted(Discovered(RulesOf(c), f, n), (p: PartialPath) => Complete.IsComplete(c.g, p));
    forall node, fragments |
      node in nodes && c.g.Kind(node).IsReference() && LeadsToDefinition(c, node, fragments)
      ensures CoversResolution(c, f, n, visited, node, fragments)
    {
      ResolutionCovered(c, f, n, initial, detectSimilar, node, fragments);
    }
  }

  lemma ResolutionCovered(c: Search, f: Fifo<Seen, Item>, n: nat, initial: seq<PartialPath>, detectSimilar: bool,
                          node: NodeHandle, fragments: seq<Fragment>)
    requires WholeRun(c, f, n) && f == Start(initial, detectSimilar)
    requires ReferenceStart(c.g, node) in initial && LeadsToDefinition(c, node, fragments)
    ensures CoversResolution(c, f, n, Accepted(Discovered(RulesOf(c), f, n),
                                               (p: PartialPath) => Complete.IsComplete(c.g, p)),
                             node, fragments)
  {
    hide WholeRun, ReferenceStart, CutOff, RulesOf, Discovered, Accepted, CandidateChain, Stitch, Complete.IsComplete,
      All;
    var p := ReferenceStart(c.g, node);
    StartFound(c, f, n, initial, detectSimilar, p);
    StitchFound(c, f, n, p, fragments);
    if !CutOff(c, f, n, [PathFragment(p)] + fragments) {
      var m :| 0 <= m < |All(c, f, n)| && All(c, f, n)[m].fragments == [PathFragment(p)] + fragments;
      FoundPath(c, f, n, m, p, fragments);
      LongIsDiscovered(c, f, n, initial, detectSimilar, m);
      AcceptedFrom(Discovered(RulesOf(c), f, n), (q: PartialPath) => Complete.IsComplete(c.g, q), All(c, f, n)[m].path);
    }
  }

  lemma FoundPath(c: Search, f: Fifo<Seen, Item>, n: nat, m: nat, p: PartialPath, fragments: seq<Fragment>)
    requires WholeRun(c, f, n) && m < |All(c, f, n)| && All(c, f, n)[m].fragments == [PathFragment(p)] + fragments
    ensures Stitch(c.g, p, fragments, c.depth) == Ok(All(c, f, n)[m].path)
  {
    hide IsComplete, NodesOnly, All;
    RunStitched(c, f, n);
    assert ([PathFragment(p)] + fragments)[1..] == fragments;
  }

  lemma StartFound(c: Search, f: Fifo<Seen, Item>, n: nat, initial: seq<PartialPath>, detectSimilar: bool,
                   p: PartialPath)
    requires f == Start(initial, detectSimilar) && p in initial
    ensures Found(c, f, n, [PathFragment(p)])
  {
    var i :| 0 <= i < |initial| && initial[i] == p;
    assert All(c, f, n)[i] == f.pending[i];
  }

  lemma LongIsDiscovered(c: Search, f: Fifo<Seen, Item>, n: nat, initial: seq<PartialPath>, detectSimilar: bool, i: nat)
    requires f == Start(initial, detectSimilar)
    requires i < |All(c, f, n)| && |All(c, f, n)[i].fragments| > 1
    ensures All(c, f, n)[i] in Discovered(RulesOf(c), f, n)
  {
    hide RulesOf, Discovered;
    assert forall k :: 0 <= k < |f.pending| ==> |All(c, f, n)[k].fragments| == 1;
  }

  lemma SensibleScopes(c: Search)
    requires Sensible(c)
    ensures c.g.AttachedScopesExist()
  {
  }

  lemma CompleteResolves(c: Search, nodes: seq<NodeHandle>, item: Item)
    requires c.g.AttachedScopesExist() && SeeksCompletePaths(c)
    requires Tracked(c, item) && Complete.IsComplete(c.g, item.path)
    requires item.fragments != [] && item.fragments[0].StartNode() in nodes
    ensures IsResolution(c, nodes, item.path)
  {
    hide Journey, Consecutive, Summary, Denotes, Complete.Resolves, Stitch, CandidateChain, Describes;
    var us :| TracksWalks(c, item, us);
    var n := us[0][0];
    ReferenceInitial(c, n);
    JourneyFromFirst(c.g, us, Nowhere);
    Complete.CompletePathsResolve(c.g, n, item.fragments[1..], us[1..], c.depth);
    assert Resolution(c, item.path, n, item.fragments[1..], us[1..]);
  }

  // ---------------------------------------------------------------------------------------------
  // The minimal set of partial paths in a file

  lemma EndpointInitial(file: File, n: NodeHandle)
    requires file.Valid() && file.g.Kind(n).IsEndpoint()
    ensures FromNode(file.g, n) == Ok(NodePath(file.g, n)) && IsInitial(SearchOf(file), NodePath(file.g, n))
    ensures NodePath(file.g, n).startNode == n
  {
    NodePathOf(file.g, n);
  }

  /** The paths of the endpoints among the nodes. */
  function EndpointStarts(g: Graph, nodes: seq<NodeHandle>): seq<PartialPath> {
    if nodes == [] then []
    else
      var n := nodes[|nodes| - 1];
      EndpointStarts(g, nodes[..|nodes| - 1]) + if g.Kind(n).IsEndpoint() then [NodePath(g, n)] else []
  }

  method EndpointPaths(file: File, nodes: seq<NodeHandle>) returns (paths: seq<PartialPath>)
    requires file.Valid()
    ensures paths == EndpointStarts(file.g, nodes)
  {
    hide IsInitial, FromNode, NodePath, SearchOf;
    paths := [];
    for i := 0 to |nodes|
      invariant paths == EndpointStarts(file.g, nodes[..i])
    {
      assert nodes[..i + 1][..i] == nodes[..i];
      if file.g.Kind(nodes[i]).IsEndpoint() {
        EndpointInitial(file, nodes[i]);
        var p := FromNode(file.g, nodes[i]);
        paths := paths + [p.value];
      }
    }
    assert nodes[..|nodes|] == nodes;
  }

  lemma {:induction false} EndpointStartsInitial(file: File, nodes: seq<NodeHandle>)
    requires file.Valid() && forall i, j :: 0 <= i < j < |nodes| ==> nodes[i] != nodes[j]
    ensures var paths := EndpointStarts(file.g, nodes);
            && (forall p :: p in paths ==>
                  IsInitial(SearchOf(file), p) && p == NodePath(file.g, p.startNode) && p.startNode in nodes)
            && (forall n :: n in nodes && file.g.Kind(n).IsEndpoint() ==> NodePath(file.g, n) in paths)
            && (forall i, j :: 0 <= i < j < |paths| ==> paths[i] != paths[j])
  {
    hide IsInitial, NodePath, SearchOf, File.Valid;
    if nodes != [] {
      var front, n := nodes[..|nodes| - 1], nodes[|nodes| - 1];
      assert nodes == front + [n];
      EndpointStartsInitial(file, front);
      if file.g.Kind(n).IsEndpoint() {
        EndpointInitial(file, n);
      }
    }
  }

  lemma FileSearchStarts(file: File, paths: seq<PartialPath>, detectSimilar: bool)
    requires file.Valid()
    requires forall p :: p in paths ==> IsInitial(SearchOf(file), p) && p == NodePath(file.g, p.startNode)
    requires forall i, j :: 0 <= i < j < |paths| ==> paths[i] != paths[j]
    ensures var f := Start(paths, detectSimilar);
            && Orderly(SearchOf(file), f) && f.initial == |f.pending| && NodesOnly(f.pending) && Distinct(f.pending)
            && AllStitched(SearchOf(file), f.pending)
  {
    hide IsInitial, NodePath, Orderly, Distinct, AllStitched;
    StartWhole(SearchOf(file), paths, detectSimilar);
    StartDistinct(paths, detectSimilar);
    StartOrderly(SearchOf(file), paths, detectSimilar);
  }

  /** Minimal: every path summarises a segment from one of the nodes, and can be stored. */
  ghost predicate OnlySegments(file: File, nodes: seq<NodeHandle>, visited: seq<PartialPath>) {
    forall p :: p in visited ==> IsSegment(file, nodes, p)
  }

  ghost predicate IsSegment(file: File, nodes: seq<NodeHandle>, p: PartialPath) {
    exists n, edges :: n in nodes && Segment(file, n, edges) && SummarisesSegment(file, p, n, edges)
  }

  /** The segment, unless one of the checks cuts it off, is summarised by one of the paths. */
  ghost predicate CoversSegment(file: File, f: Fifo<Seen, Item>, n: nat, visited: seq<PartialPath>, node: NodeHandle,
                                edges: seq<Edge>) {
    || CutOff(SearchOf(file), f, n, FragmentsOf(file.g, node, edges))
    || exists p :: p in visited && SummarisesSegment(file, p, node, edges)
  }

  /** Some stacks can run the segment, and have a scope to go on at if it ends in a jump. */
  ghost predicate PassableSegment(file: File, node: NodeHandle, edges: seq<Edge>) {
    Segment(file, node, edges) && Passable(file.g, Nodes(node, edges), Anywhere)
  }

  /** Covering: every segment that stacks can run is summarised, unless one of the checks cuts it off. */
  ghost predicate AllSegments(file: File, f: Fifo<Seen, Item>, n: nat, nodes: seq<NodeHandle>,
                              visited: seq<PartialPath>)
  {
    forall node, edges :: node in nodes && PassableSegment(file, node, edges) ==>
      CoversSegment(file, f, n, visited, node, edges)
  }

  datatype Piece = Piece(node: NodeHandle, edges: seq<Edge>)

  /** The item has been led along the segment, and summarises it. */
  ghost predicate IsPiece(file: File, nodes: seq<NodeHandle>, item: Item, piece: Piece) {
    && piece.node in nodes && Segment(file, piece.node, piece.edges)
    && SummarisesSegment(file, item.path, piece.node, piece.edges)
    && item.fragments == FragmentsOf(file.g, piece.node, piece.edges)
  }

  /**
   Each path that is visited is that of a segment of its own, and each segment that stacks can run and no check
   cuts off is one of these.  So it is visited exactly once.
   */
  ghost predicate EachOnce(file: File, f: Fifo<Seen, Item>, n: nat, nodes: seq<NodeHandle>,
                           visited: seq<PartialPath>, pieces: seq<Piece>)
  {
    && |pieces| == |visited|
    && (forall i :: 0 <= i < |pieces| ==>
          && pieces[i].node in nodes && Segment(file, pieces[i].node, pieces[i].edges)
          && SummarisesSegment(file, visited[i], pieces[i].node, pieces[i].edges))
    && (forall i, j :: 0 <= i < j < |pieces| ==> pieces[i] != pieces[j])
    && (forall node, edges :: node in nodes && PassableSegment(file, node, edges) ==>
          CutOff(SearchOf(file), f, n, FragmentsOf(file.g, node, edges)) || Piece(node, edges) in pieces)
  }

  /**
   `nodes` are the nodes in the file and the root.  The `n` steps of worklist `f` are the run that the search
   makes.  It never panics.
   */
  method FindMinimalPartialPathSetInFile(file: File, nodes: seq<NodeHandle>, detectSimilar: bool, maxWork: nat,
                                         patience: nat)
    returns (r: Result<seq<PartialPath>, Stop>, ghost f: Fifo<Seen, Item>, ghost n: nat)
    requires file.Valid() && forall i, j :: 0 <= i < j < |nodes| ==> nodes[i] != nodes[j]
    ensures f == Start(EndpointStarts(file.g, nodes), detectSimilar)
    ensures r.Ok? ==> FinishedRun(file, f, n)
    ensures r.Ok? ==> OnlySegments(file, nodes, r.value)
    ensures r.Ok? ==> AllSegments(file, f, n, nodes, r.value)
    ensures r.Ok? ==> r.value == Accepted(Discovered(RulesOf(SearchOf(file)), f, n),
                                          (p: PartialPath) => AsCompleteAsNecessary(file.g, p))
    ensures r.Ok? ==> exists pieces :: EachOnce(file, f, n, nodes, r.value, pieces)
    ensures r.Err? ==> r.error == Cancelled && OutOfPatience(SearchOf(file), f, n, patience)
    ensures (exists m: nat :: m <= patience && SearchCoverage.IsComplete(SearchOf(file), f, m)) ==> r.Ok?
  {
    hide OnlySegments, AllSegments, AsCompleteAsNecessary, Orderly, Distinct, SearchCoverage.IsComplete, IsInitial,
      NodePath, PanicsAt, EndpointStarts, NeverPanicsIn, OutOfPatience, EachOnce;
    var c := SearchOf(file);
    var initial := EndpointPaths(file, nodes);
    EndpointStartsInitial(file, nodes);
    FileSearchStarts(file, initial, detectSimilar);
    SearchSensible(file);
    var stitcher := new ForwardPartialPathStitcher(initial, detectSimilar, maxWork, c);
    f := stitcher.View();
    r, n := RunPhases(stitcher, c, (p: PartialPath) => AsCompleteAsNecessary(file.g, p), patience);
    if r.Ok? {
      FinishedSearch(file, f, n, initial, detectSimilar, nodes);
      ghost var pieces := VisitedOnce(file, f, n, initial, detectSimilar, nodes);
    } else if r.error == Panicked {
      FileNeverPanics(file, f, n - 1);
    }
    FileEndsWithin(file, f, patience);
  }

  lemma FileNeverPanics(file: File, f: Fifo<Seen, Item>, k: nat)
    requires file.Valid() && Orderly(SearchOf(file), f)
    ensures !PanicsAt(SearchOf(file), f, k)
  {
    hide Sensible, Tracked, CheckFails, RulesOf, Discovered;
    var c := SearchOf(file);
    SearchSensible(file);
    RunsOrderly(c, f, k);
    if PanicsAt(c, f, k) {
      NeverPanics(file, Steps(RulesOf(c), f, k).pending[0]);
    }
  }

  lemma FileEndsWithin(file: File, f: Fifo<Seen, Item>, patience: nat)
    requires file.Valid() && Orderly(SearchOf(file), f)
    ensures EndsWithin(SearchOf(file), f, patience) <==>
            exists m: nat :: m <= patience && SearchCoverage.IsComplete(SearchOf(file), f, m)
  {
    hide PanicsAt, SearchCoverage.IsComplete, Orderly;
    forall k: nat
      ensures !PanicsAt(SearchOf(file), f, k)
    {
      FileNeverPanics(file, f, k);
    }
  }

  lemma FinishedSearch(file: File, f: Fifo<Seen, Item>, n: nat, initial: seq<PartialPath>, detectSimilar: bool,
                       nodes: seq<NodeHandle>)
    requires FinishedRun(file, f, n) && f == Start(initial, detectSimilar)
    requires forall node :: node in nodes && file.g.Kind(node).IsEndpoint() ==> NodePath(file.g, node) in initial
    requires forall p :: p in initial ==> p.startNode in nodes
    ensures var visited := Accepted(Discovered(RulesOf(SearchOf(file)), f, n),
                                    (q: PartialPath) => AsCompleteAsNecessary(file.g, q));
            OnlySegments(file, nodes, visited) && AllSegments(file, f, n, nodes, visited)
  {
    hide FinishedRun, AsCompleteAsNecessary, NodePath, RulesOf, IsSegment, Accepted, CoversSegment, Uninterrupted,
      Passable, Discovered;
    var visited := Accepted(Discovered(RulesOf(SearchOf(file)), f, n),
                            (q: PartialPath) => AsCompleteAsNecessary(file.g, q));
    forall p | p in visited
      ensures IsSegment(file, nodes, p)
    {
      VisitedPath(file, f, n, initial, detectSimilar, nodes, p);
    }
    forall node, edges | node in nodes && PassableSegment(file, node, edges)
      ensures CoversSegment(file, f, n, visited, node, edges)
    {
      StartsAtEndpoint(file, node, edges);
      SegmentCovered(file, f, n, initial, detectSimilar, node, edges);
    }
  }

  lemma VisitedPath(file: File, f: Fifo<Seen, Item>, n: nat, initial: seq<PartialPath>, detectSimilar: bool,
                    nodes: seq<NodeHandle>, p: PartialPath)
    requires FinishedRun(file, f, n) && f == Start(initial, detectSimilar)
    requires forall q :: q in initial ==> q.startNode in nodes
    requires p in Accepted(Discovered(RulesOf(SearchOf(file)), f, n),
                           (q: PartialPath) => AsCompleteAsNecessary(file.g, q))
    ensures IsSegment(file, nodes, p)
  {
    hide AsCompleteAsNecessary, Segment, RulesOf, Discovered, Accepted, SummarisesSegment, FinishedRun;
    var found := Discovered(RulesOf(SearchOf(file)), f, n);
    AcceptedFrom(found, (q: PartialPath) => AsCompleteAsNecessary(file.g, q), p);
    var i :| 0 <= i < |found| && found[i].path == p;
    var piece := DiscoveredPiece(file, f, n, initial, detectSimilar, nodes, i);
  }

  /** The segment that the item has been led along. */
  lemma DiscoveredPiece(file: File, f: Fifo<Seen, Item>, n: nat, initial: seq<PartialPath>, detectSimilar: bool,
                        nodes: seq<NodeHandle>, i: nat) returns (piece: Piece)
    requires FinishedRun(file, f, n) && f == Start(initial, detectSimilar)
    requires forall q :: q in initial ==> q.startNode in nodes
    requires var found := Discovered(RulesOf(SearchOf(file)), f, n);
             i < |found| && AsCompleteAsNecessary(file.g, found[i].path)
    ensures IsPiece(file, nodes, Discovered(RulesOf(SearchOf(file)), f, n)[i], piece)
  {
    hide AsCompleteAsNecessary, Tracked, Segment, RulesOf, Discovered, SummarisesSegment, HasRoot, Orderly,
      AllStitched, Distinct, NodePath, SearchCoverage.IsComplete;
    var c := SearchOf(file);
    var found := Discovered(RulesOf(c), f, n);
    var m := |f.pending| + i;
    assert All(c, f, n)[m] == found[i];
    FinishedItems(file, f, n, m);
    DiscoveredLonger(file, f, n, m);
    var node, edges := VisitedIsSegment(file, found[i]);
    piece := Piece(node, edges);
    RunRooted(c, f, n);
    assert found[i] in All(c, f, n);
    StartsAmong(c, initial, detectSimilar, nodes, found[i]);
    NodePathOf(file.g, node);
  }

  lemma DiscoveredLonger(file: File, f: Fifo<Seen, Item>, n: nat, m: nat)
    requires FinishedRun(file, f, n) && |f.pending| <= m < |All(SearchOf(file), f, n)|
    ensures |All(SearchOf(file), f, n)[m].fragments| > 1
  {
    hide Orderly, SearchCoverage.IsComplete, RulesOf, Discovered, Processed, Distinct, HasParent;
    RunDescended(SearchOf(file), f, n);
    AllHaveFragments(SearchOf(file), f, n);
    if |All(SearchOf(file), f, n)[m].fragments| == 1 {
      SingleIsInitial(SearchOf(file), f, n, m);
    }
  }

  lemma SegmentCovered(file: File, f: Fifo<Seen, Item>, n: nat, initial: seq<PartialPath>, detectSimilar: bool,
                       node: NodeHandle, edges: seq<Edge>)
    requires FinishedRun(file, f, n) && f == Start(initial, detectSimilar)
    requires NodePath(file.g, node) in initial
    requires PassableSegment(file, node, edges)
    ensures var visited := Accepted(Discovered(RulesOf(SearchOf(file)), f, n),
                                    (q: PartialPath) => AsCompleteAsNecessary(file.g, q));
            CoversSegment(file, f, n, visited, node, edges)
  {
    hide AsCompleteAsNecessary, SummarisesSegment, Uninterrupted, FinishedRun, Passable, NodePath, CutOff, Nodes, All,
      RulesOf, Discovered, Accepted;
    var c := SearchOf(file);
    InitialFound(file, f, n, initial, detectSimilar, node);
    if !CutOff(c, f, n, FragmentsOf(file.g, node, edges)) {
      var i := SegmentVisitedOnce(file, f, n, node, edges);
      LongIsDiscovered(c, f, n, initial, detectSimilar, i);
      AcceptedFrom(Discovered(RulesOf(c), f, n), (q: PartialPath) => AsCompleteAsNecessary(file.g, q),
                   All(c, f, n)[i].path);
    }
  }

  lemma InitialFound(file: File, f: Fifo<Seen, Item>, n: nat, initial: seq<PartialPath>, detectSimilar: bool,
                     node: NodeHandle)
    requires f == Start(initial, detectSimilar) && NodePath(file.g, node) in initial
    ensures Found(SearchOf(file), f, n, FragmentsOf(file.g, node, []))
  {
    StartFound(SearchOf(file), f, n, initial, detectSimilar, NodePath(file.g, node));
    assert FragmentsOf(file.g, node, []) == [PathFragment(NodePath(file.g, node))];
  }

  // ---------------------------------------------------------------------------------------------
  // Exactly once

  /** The items whose paths are accepted, in order. */
  function AcceptedItems(items: seq<Item>, accept: PartialPath -> bool): seq<Item> {
    if items == [] then []
    else
      var last := items[|items| - 1];
      AcceptedItems(items[..|items| - 1], accept) + if accept(last.path) then [last] else []
  }

  lemma {:induction false} AcceptedAre(items: seq<Item>, accept: PartialPath -> bool)
    ensures var kept := AcceptedItems(items, accept);
            && |kept| == |Accepted(items, accept)|
            && (forall i :: 0 <= i < |kept| ==> kept[i].path == Accepted(items, accept)[i])
            && (forall j :: j in kept <==> j in items && accept(j.path))
  {
    if items != [] {
      AcceptedAre(items[..|items| - 1], accept);
      assert items == items[..|items| - 1] + [items[|items| - 1]];
    }
  }

  lemma {:induction false} AcceptedDistinct(items: seq<Item>, accept: PartialPath -> bool)
    requires Distinct(items)
    ensures Distinct(AcceptedItems(items, accept))
  {
    if items != [] {
      var front, last := items[..|items| - 1], items[|items| - 1];
      AcceptedDistinct(front, accept);
      AcceptedAre(front, accept);
      if accept(last.path) {
        DistinctSnoc(AcceptedItems(front, accept), last);
      }
    }
  }

  lemma DiscoveredDistinct(file: File, f: Fifo<Seen, Item>, n: nat)
    requires FinishedRun(file, f, n)
    ensures Distinct(Discovered(RulesOf(SearchOf(file)), f, n))
  {
    hide FinishedRun, RulesOf, Discovered;
    AllDistinct(file, f, n);
    var all, found := All(SearchOf(file), f, n), Discovered(RulesOf(SearchOf(file)), f, n);
    assert forall i :: 0 <= i < |found| ==> found[i] == all[|f.pending| + i];
  }

  lemma {:induction false} PiecesOf(file: File, f: Fifo<Seen, Item>, n: nat, initial: seq<PartialPath>,
                                    detectSimilar: bool, nodes: seq<NodeHandle>, items: seq<Item>)
    returns (pieces: seq<Piece>)
    requires FinishedRun(file, f, n) && f == Start(initial, detectSimilar)
    requires forall q :: q in initial ==> q.startNode in nodes
    requires forall j :: j in items ==>
               j in Discovered(RulesOf(SearchOf(file)), f, n) && AsCompleteAsNecessary(file.g, j.path)
    ensures |pieces| == |items| && forall i :: 0 <= i < |items| ==> IsPiece(file, nodes, items[i], pieces[i])
  {
    hide FinishedRun, AsCompleteAsNecessary, RulesOf, Discovered, IsPiece;
    if items == [] {
      pieces := [];
    } else {
      var front, last := items[..|items| - 1], items[|items| - 1];
      var before := PiecesOf(file, f, n, initial, detectSimilar, nodes, front);
      var found := Discovered(RulesOf(SearchOf(file)), f, n);
      assert last in items;
      var i :| 0 <= i < |found| && found[i] == last;
      var piece := DiscoveredPiece(file, f, n, initial, detectSimilar, nodes, i);
      pieces := before + [piece];
    }
  }

  lemma SamePiece(g: Graph, a: Piece, b: Piece)
    requires g.AttachedScopesExist() && FragmentsOf(g, a.node, a.edges) == FragmentsOf(g, b.node, b.edges)
    ensures a == b
  {
    hide NodePath;
    NodePathOf(g, a.node);
    NodePathOf(g, b.node);
    assert FragmentsOf(g, a.node, a.edges)[0] == PathFragment(NodePath(g, a.node));
    forall k | 0 <= k < |a.edges|
      ensures a.edges[k] == b.edges[k]
    {
      assert FragmentsOf(g, a.node, a.edges)[k + 1] == EdgeFragment(a.edges[k]);
      assert FragmentsOf(g, b.node, b.edges)[k + 1] == EdgeFragment(b.edges[k]);
    }
  }

  lemma VisitedOnce(file: File, f: Fifo<Seen, Item>, n: nat, initial: seq<PartialPath>, detectSimilar: bool,
                    nodes: seq<NodeHandle>) returns (pieces: seq<Piece>)
    requires FinishedRun(file, f, n) && f == Start(initial, detectSimilar)
    requires forall node :: node in nodes && file.g.Kind(node).IsEndpoint() ==> NodePath(file.g, node) in initial
    requires forall q :: q in initial ==> q.startNode in nodes
    ensures EachOnce(file, f, n, nodes, Accepted(Discovered(RulesOf(SearchOf(file)), f, n),
                                                 (q: PartialPath) => AsCompleteAsNecessary(file.g, q)), pieces)
  {
    hide FinishedRun, AsCompleteAsNecessary, NodePath, RulesOf, Accepted, AcceptedItems, SummarisesSegment,
      Uninterrupted, Passable, Discovered, CutOff, FragmentsOf;
    var accept := (q: PartialPath) => AsCompleteAsNecessary(file.g, q);
    var found := Discovered(RulesOf(SearchOf(file)), f, n);
    var items := AcceptedItems(found, accept);
    AcceptedAre(found, accept);
    DiscoveredDistinct(file, f, n);
    AcceptedDistinct(found, accept);
    pieces := PiecesOf(file, f, n, initial, detectSimilar, nodes, items);
    forall node, edges | node in nodes && PassableSegment(file, node, edges)
      ensures CutOff(SearchOf(file), f, n, FragmentsOf(file.g, node, edges)) || Piece(node, edges) in pieces
    {
      StartsAtEndpoint(file, node, edges);
      if !CutOff(SearchOf(file), f, n, FragmentsOf(file.g, node, edges)) {
        var k := PieceFound(file, f, n, initial, detectSimilar, Piece(node, edges));
        assert found[k] in items;
        var j :| 0 <= j < |items| && items[j] == found[k];
        FinishedScopes(file, f, n);
        SamePiece(file.g, Piece(node, edges), pieces[j]);
        assert pieces[j] in pieces;
      }
    }
  }

  lemma FinishedScopes(file: File, f: Fifo<Seen, Item>, n: nat)
    requires FinishedRun(file, f, n)
    ensures file.g.AttachedScopesExist()
  {
  }

  /** Where the segment's path has been discovered. */
  lemma PieceFound(file: File, f: Fifo<Seen, Item>, n: nat, initial: seq<PartialPath>, detectSimilar: bool,
                   piece: Piece) returns (k: nat)
    requires FinishedRun(file, f, n) && f == Start(initial, detectSimilar)
    requires NodePath(file.g, piece.node) in initial && PassableSegment(file, piece.node, piece.edges)
    requires !CutOff(SearchOf(file), f, n, FragmentsOf(file.g, piece.node, piece.edges))
    ensures var found := Discovered(RulesOf(SearchOf(file)), f, n);
            && k < |found| && AsCompleteAsNecessary(file.g, found[k].path)
            && found[k].fragments == FragmentsOf(file.g, piece.node, piece.edges)
  {
    hide AsCompleteAsNecessary, SummarisesSegment, Uninterrupted, FinishedRun, Passable, NodePath, CutOff, Nodes, All,
      RulesOf, Discovered;
    var c := SearchOf(file);
    InitialFound(file, f, n, initial, detectSimilar, piece.node);
    var i := SegmentVisitedOnce(file, f, n, piece.node, piece.edges);
    LongIsDiscovered(c, f, n, initial, detectSimilar, i);
    var found := Discovered(RulesOf(c), f, n);
    k :| 0 <= k < |found| && found[k] == All(c, f, n)[i];
  }
}
