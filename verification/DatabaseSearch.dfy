/**
 Searching a database of stored paths for complete ones: the lookup gives sensible candidates, and misses
 none that can be appended but root paths without precondition symbols.  So every journey over stored paths
 that resolves a reference is found, unless one of the stitcher's checks cuts it off.
 */
module DatabaseSearch {
  import opened Wrappers
  import opened Graphs
  import opened Patterns
  import opened Unification
  import opened PartialPaths
  import opened Exactness
  import opened Renaming
  import opened SupplementalArenas
  import opened Settling
  import opened Stitching
  import opened CycleDetection
  import Complete = CompletePaths
  import opened Worklists
  import opened Stitcher
  import opened SearchCoverage
  import opened PathFinding
  import Index = RootIndex

  /** The path summarises a walk from a node that is no jump, and is open to whatever lies below. */
  ghost predicate Storable(g: Graph, p: PartialPath) {
    exists u :: Describes(g, PathFragment(p), u)
  }

  /** A database, as the search sees it. */
  datatype Store = Store(g: Graph, paths: seq<PartialPath>, isJoin: NodeHandle -> bool, depth: nat) {
    ghost predicate Valid() {
      && g.AttachedScopesExist()
      && (forall n, m :: g.Kind(n).Root? && g.Kind(m).Root? ==> n == m)
      && (forall p :: p in paths ==> Storable(g, p))
      && (forall n :: isJoin(n) <==> Saturated(Index.EndingAt(paths, n)) == Multiple)
    }
  }

  /** The stored paths with these handles. */
  function FragmentsAt(paths: seq<PartialPath>, handles: seq<nat>): seq<Fragment> {
    if handles == [] then []
    else
      var h := handles[|handles| - 1];
      FragmentsAt(paths, handles[..|handles| - 1]) + if h < |paths| then [PathFragment(paths[h])] else []
  }

  function SearchIn(store: Store): Search {
    Search(
      store.g,
      (p: PartialPath) => FragmentsAt(store.paths, Index.Candidates(store.g, store.paths, p)),
      store.isJoin,
      (p: PartialPath) => true,
      (n: NodeHandle) => store.g.Kind(n).IsReference(),
      Nowhere,
      true,
      store.depth)
  }

  lemma {:induction false} FragmentsAtHandles(paths: seq<PartialPath>, handles: seq<nat>, f: Fragment)
    ensures f in FragmentsAt(paths, handles) <==>
            f.PathFragment? && exists h :: h in handles && h < |paths| && paths[h] == f.path
  {
    if handles != [] {
      var front, last := handles[..|handles| - 1], handles[|handles| - 1];
      FragmentsAtHandles(paths, front, f);
      assert handles == front + [last];
    }
  }

  /** The candidates are exactly the stored paths that may continue the path. */
  lemma CandidatesAre(store: Store, path: PartialPath, f: Fragment)
    ensures f in SearchIn(store).forward(path) <==>
            f.PathFragment? && f.path in store.paths && Index.Continues(store.g, path, f.path)
  {
    hide FragmentsAt, Index.Candidates, Index.Continues;
    FragmentsAtHandles(store.paths, Index.Candidates(store.g, store.paths, path), f);
    if f.PathFragment? {
      Index.CandidatesContinue(store.g, store.paths, path, f.path);
    }
  }

  /** So a search of the database is a sensible search for complete paths, whether or not a path is stored twice. */
  lemma StoreSensible(store: Store)
    requires store.Valid()
    ensures Sensible(SearchIn(store)) && SeeksCompletePaths(SearchIn(store))
  {
    hide FragmentsAt, Index.Candidates;
    var c := SearchIn(store);
    forall p, f | IsCandidate(c, p, f)
      ensures Fits(c, p, f)
    {
      CandidatesAre(store, p, f);
      assert Storable(store.g, f.path);
    }
  }

  // ---------------------------------------------------------------------------------------------
  // No path that can be appended is missed, but for one kind

  /** Root paths without precondition symbols are not indexed. */
  predicate Indexed(g: Graph, p: PartialPath) {
    g.Kind(p.startNode).Root? ==> p.symbolPre.symbols != []
  }

  lemma JoinCompatible(g: Graph, path: PartialPath, next: PartialPath, depth: nat)
    requires path.endNode == next.startNode && g.Kind(path.endNode).Root? && AppendPath(g, path, next, depth).Ok?
    ensures Index.Compatible(Index.SymbolsOf(path.symbolPost), path.symbolPost.variable.Some?,
                             Index.SymbolsOf(next.symbolPre), next.symbolPre.variable.Some?)
  {
    var lhs := path.RenamedApartFrom(next);
    assert Joined(g, lhs, next, depth).Ok?;
    assert UnifySymbols(lhs.symbolPost, next.symbolPre, [], map[], map[], depth).Ok?;
    Index.UnifiableIsCompatible(lhs.symbolPost, next.symbolPre, [], map[], map[], depth);
    assert Index.SymbolsOf(lhs.symbolPost) == Index.SymbolsOf(path.symbolPost);
  }

  /** A stored path that can be appended to a path from empty stacks is a candidate, if it is indexed. */
  lemma AppendableIsCandidate(store: Store, path: PartialPath, next: PartialPath)
    requires next in store.paths && Indexed(store.g, next) && path.symbolPost.variable.None?
    requires path.endNode == next.startNode && AppendPath(store.g, path, next, store.depth).Ok?
    ensures PathFragment(next) in SearchIn(store).forward(path)
  {
    hide AppendPath, FragmentsAt, Index.Candidates;
    CandidatesAre(store, path, PathFragment(next));
    if store.g.Kind(path.endNode).Root? {
      JoinCompatible(store.g, path, next, store.depth);
    }
  }

  function PathFragments(ps: seq<PartialPath>): (r: seq<Fragment>)
    ensures |r| == |ps|
  {
    seq(|ps|, i requires 0 <= i < |ps| => PathFragment(ps[i]))
  }

  ghost predicate AllStored(store: Store, ps: seq<PartialPath>) {
    forall i :: 0 <= i < |ps| ==> ps[i] in store.paths && Indexed(store.g, ps[i])
  }

  /** Along a journey over stored paths that stacks can run, every path is a candidate that can be appended. */
  lemma {:induction false} ChainOfStoredPaths(store: Store, n: NodeHandle, ps: seq<PartialPath>, us: seq<Walk>)
    requires store.Valid() && store.g.Kind(n).IsReference() && AllStored(store, ps)
    requires DescribeAll(store.g, PathFragments(ps), us) && Consecutive(store.g, [n], us, Nowhere)
    requires Passable(store.g, Journey(store.g, [n], us, Nowhere), Nowhere)
    ensures CandidateChain(SearchIn(store), ReferenceStart(store.g, n), PathFragments(ps))
    ensures Stitch(store.g, ReferenceStart(store.g, n), PathFragments(ps), store.depth).Ok?
  {
    hide Store.Valid, ReferenceStart, Passable, Settle, Describes, AppendPath, FragmentsAt, Indexed, Index.Candidates,
      Summary;
    StoredJourney(store, n, ps, us);
    if ps != [] {
      var k := |ps| - 1;
      var v := Journey(store.g, [n], us[..k], Nowhere);
      assert PathFragments(ps)[..k] == PathFragments(ps[..k]);
      DescribedStart(store.g, PathFragments(ps)[k], us[k]);
      PassableBefore(store.g, v, us[k], Nowhere);
      ChainOfStoredPaths(store, n, ps[..k], us[..k]);
      StoredJourney(store, n, ps[..k], us[..k]);
      var q := Stitch(store.g, ReferenceStart(store.g, n), PathFragments(ps[..k]), store.depth).value;
      SummaryOf(store.g, q, v, Nowhere);
      assert AppendFragment(store.g, q, PathFragments(ps)[k], store.depth) ==
             AppendPath(store.g, q, ps[k], store.depth);
      AppendableIsCandidate(store, q, ps[k]);
    }
  }

  lemma StoredJourney(store: Store, n: NodeHandle, ps: seq<PartialPath>, us: seq<Walk>)
    requires store.Valid() && store.g.Kind(n).IsReference()
    requires DescribeAll(store.g, PathFragments(ps), us) && Consecutive(store.g, [n], us, Nowhere)
    ensures var r := Stitch(store.g, ReferenceStart(store.g, n), PathFragments(ps), store.depth);
            && (r.Ok? <==> Passable(store.g, Journey(store.g, [n], us, Nowhere), Nowhere))
            && (r.Ok? ==> Summary(store.g, r.value, Journey(store.g, [n], us, Nowhere), Nowhere))
            && (r.Ok? ==> r.value.symbolPost.variable.None?)
  {
    hide Passable, Settle, Journey, Consecutive, Describes, Stitch, ReferencePath, Summary;
    InitialSummary(store.g, n, Nowhere);
    var start := ReferenceStart(store.g, n);
    StitchSummary(store.g, start, [n], PathFragments(ps), us, store.depth, Nowhere);
    var r := Stitch(store.g, start, PathFragments(ps), store.depth);
    if r.Ok? {
      StitchFromEmptyStacks(store.g, start, [n], PathFragments(ps), us, store.depth, Nowhere);
      NoVariableLeft(store.g, r.value, Journey(store.g, [n], us, Nowhere));
    }
  }

  lemma NoVariableLeft(g: Graph, p: PartialPath, w: Walk)
    requires Summary(g, p, w, Nowhere) && FromEmptyStacks(p)
    ensures p.symbolPost.variable.None?
  {
    PostVariablesOccurInPre(g, p, w, Nowhere);
    if p.symbolPost.variable.Some? {
      assert p.symbolPost.variable.value in p.symbolPost.SymbolVariables();
    }
  }

  // ---------------------------------------------------------------------------------------------
  // Every journey over stored paths that resolves a reference is found

  /** The paths are stored, stand for these walks, and their journey from `n` resolves the reference. */
  ghost predicate ResolvesOver(store: Store, n: NodeHandle, ps: seq<PartialPath>, us: seq<Walk>) {
    && ps != [] && AllStored(store, ps)
    && DescribeAll(store.g, PathFragments(ps), us) && Consecutive(store.g, [n], us, Nowhere)
    && Complete.Resolves(store.g, Journey(store.g, [n], us, Nowhere))
  }

  /** `visited` are the paths that a search of the database has visited, in the `steps` steps of worklist `f`. */
  lemma JourneyFound(store: Store, f: Fifo<Seen, Item>, steps: nat, nodes: seq<NodeHandle>, visited: seq<PartialPath>,
                     n: NodeHandle, ps: seq<PartialPath>, us: seq<Walk>)
    requires store.Valid() && AllResolutions(SearchIn(store), f, steps, nodes, visited)
    requires n in nodes && ResolvesOver(store, n, ps, us)
    ensures || CutOff(SearchIn(store), f, steps, [PathFragment(ReferenceStart(store.g, n))] + PathFragments(ps))
            || exists p :: p in visited && Denotes(store.g, p, Journey(store.g, [n], us, Nowhere), Nowhere)
  {
    hide Store.Valid, CutOff, Stitch, CandidateChain, Describes, ReferenceStart, ReferencePath, Denotes, Summary;
    var c := SearchIn(store);
    var w := Journey(store.g, [n], us, Nowhere);
    ResolvedPassable(store, n, us);
    ChainOfStoredPaths(store, n, ps, us);
    ReferenceKnown(store, n);
    Complete.CompletePathsResolve(store.g, n, PathFragments(ps), us, store.depth);
    assert LeadsToDefinition(c, n, PathFragments(ps));
    assert CoversResolution(c, f, steps, visited, n, PathFragments(ps));
  }

  lemma ReferenceKnown(store: Store, n: NodeHandle)
    requires store.Valid() && store.g.Kind(n).IsReference()
    ensures store.g.AttachedScopesExist() && ReferencePath(store.g, n) == Ok(ReferenceStart(store.g, n))
  {
    InitialSummary(store.g, n, Nowhere);
  }

  /** What resolves a reference starts at it, and ends at a definition. */
  lemma ResolvedPassable(store: Store, n: NodeHandle, us: seq<Walk>)
    requires Consecutive(store.g, [n], us, Nowhere)
    requires Complete.Resolves(store.g, Journey(store.g, [n], us, Nowhere))
    ensures store.g.Kind(n).IsReference() && Passable(store.g, Journey(store.g, [n], us, Nowhere), Nowhere)
  {
    hide Journey, Consecutive;
    Complete.JourneyNeverWaits(store.g, n, us);
  }
}
