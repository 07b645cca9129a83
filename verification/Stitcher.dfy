/**
 The stitcher: it extends paths with candidates phase by phase, drops cyclic and similar ones, and
 behaves as one first-in first-out worklist.  Every path that it ever holds is an exact summary of a journey
 that stacks can run, jumps included.  So its cycle detector, whose failure would be a panic, can fail only
 on a path with a cycle that passes a jump.
 */
module Stitcher {
  import opened Wrappers
  import opened Graphs
  import opened Unification
  import opened PartialPaths
  import opened Exactness
  import opened AppendExactness
  import opened Cyclicity
  import opened Settling
  import opened Stitching
  import opened CycleDetection
  import opened ChosenBlocks
  import opened ChosenCycles
  import opened SimilarPaths
  import opened Worklists

  /** A path with the fragments it was stitched from, and whether it was one of many on the way. */
  datatype Item = Item(path: PartialPath, fragments: seq<Fragment>, hasSplit: bool)

  /**
   A search over a fixed database: which fragments may extend a path, which nodes many of the fragments
   lead to, which paths are to be extended, where initial paths start, with which stacks, and whether cycles
   and similar paths are looked for at joins only.
   */
  datatype Search = Search(
    g: Graph,
    forward: PartialPath -> seq<Fragment>,
    isJoin: NodeHandle -> bool,
    extendWhile: PartialPath -> bool,
    mayStartAt: NodeHandle -> bool,
    origin: Origin,
    onlyJoins: bool,
    depth: nat)

  // ---------------------------------------------------------------------------------------------
  // What extending one path does

  predicate ChecksCycles(c: Search, p: PartialPath) {
    !c.onlyJoins || p.startNode == p.endNode || c.isJoin(p.endNode)
  }

  /** Paths with precondition variables may not have cycles at all, others only strengthening ones. */
  predicate Forbidden(p: PartialPath, cycles: set<Cyclicity>) {
    if p.HasPreconditionVariables() then cycles != {} else cycles - {StrengthensPrecondition} != {}
  }

  /** The cycle check panics. */
  predicate CheckFails(c: Search, item: Item) {
    ChecksCycles(c, item.path) && Detected(c.g, item.fragments, c.depth).Err?
  }

  /** Step `k` of the run extends a path, and the cycle check panics on it. */
  ghost predicate PanicsAt(c: Search, f: Fifo<Seen, Item>, k: nat) {
    var at := Steps(RulesOf(c), f, k);
    && at.pending != [] && (at.initial > 0 || c.extendWhile(at.pending[0].path))
    && CheckFails(c, at.pending[0])
  }

  predicate Discontinued(c: Search, item: Item) {
    && ChecksCycles(c, item.path)
    && (CheckFails(c, item) || Forbidden(item.path, Detected(c.g, item.fragments, c.depth).value))
  }

  /** The extensions with those candidates that can be appended. */
  function Extensions(c: Search, item: Item, candidates: seq<Fragment>): seq<Item> {
    if candidates == [] then []
    else
      var f := candidates[|candidates| - 1];
      var p := AppendFragment(c.g, item.path, f, c.depth);
      Extensions(c, item, candidates[..|candidates| - 1]) +
      if p.Ok? then [Item(p.value, item.fragments + [f], item.hasSplit)] else []
  }

  predicate ChecksSimilar(c: Search, item: Item) {
    item.hasSplit && (!c.onlyJoins || c.isJoin(item.path.endNode))
  }

  datatype Kept = Kept(seen: Option<Detector>, items: seq<Item>)

  /** Keeps the item unless the detector, if there is one, has seen a similar path that is as good. */
  ghost function KeepItem(c: Search, seen: Option<Detector>, item: Item): (r: Kept)
    requires seen.Some? ==> seen.value.Valid()
    ensures r.seen.Some? <==> seen.Some?
    ensures r.seen.Some? ==> r.seen.value.Valid()
  {
    if seen.None? || !ChecksSimilar(c, item) then Kept(seen, [item])
    else
      var k := Key(item.path);
      var offer := OfferTo(seen.value.At(k), item.path);
      OfferKeepsValid(seen.value.At(k), item.path);
      Kept(Some(Detector(seen.value.buckets[k := offer.bucket])), if offer.similar then [] else [item])
  }

  ghost function KeepItems(c: Search, seen: Option<Detector>, items: seq<Item>): (r: Kept)
    requires seen.Some? ==> seen.value.Valid()
    ensures r.seen.Some? <==> seen.Some?
    ensures r.seen.Some? ==> r.seen.value.Valid()
  {
    if items == [] then Kept(seen, [])
    else
      var before := KeepItems(c, seen, items[..|items| - 1]);
      var last := KeepItem(c, before.seen, items[|items| - 1]);
      Kept(last.seen, before.items + last.items)
  }

  function WithSplit(items: seq<Item>, hasSplit: bool): (r: seq<Item>)
    ensures |r| == |items|
  {
    seq(|items|, i requires 0 <= i < |items| => items[i].(hasSplit := hasSplit))
  }

  /** The state of the similar path detector: a detector whose buckets are in order, or none at all. */
  type Seen = s: Option<Detector> | s.Some? ==> s.value.Valid() ghost witness None

  /** Every candidate is tried, and the extensions that the similarity check leaves are kept. */
  ghost function Continued(c: Search, seen: Seen, item: Item): Extended<Seen, Item> {
    var candidates := c.forward(item.path);
    var extensions := Extensions(c, item, candidates);
    var kept := KeepItems(c, seen, WithSplit(extensions, item.hasSplit || |extensions| > 1));
    Extended(kept.seen, kept.items, |candidates|)
  }

  ghost function ExtendItem(c: Search, seen: Seen, item: Item): Extended<Seen, Item> {
    if Discontinued(c, item) then Extended(seen, [], 0) else Continued(c, seen, item)
  }

  ghost function RulesOf(c: Search): Rules<Seen, Item> {
    Rules((seen, item) => ExtendItem(c, seen, item), (item: Item) => c.extendWhile(item.path))
  }

  // ---------------------------------------------------------------------------------------------
  // Every path summarises a journey that stacks can run

  /** The item's path is what its fragments stitch to. */
  ghost predicate Stitched(c: Search, item: Item) {
    && item.fragments != [] && item.fragments[0].PathFragment?
    && Stitch(c.g, item.fragments[0].path, item.fragments[1..], c.depth) == Ok(item.path)
  }

  /** Each fragment is a candidate for what the ones before it stitch to, which may be extended. */
  ghost predicate CandidateChain(c: Search, p: PartialPath, fragments: seq<Fragment>) {
    fragments != [] ==>
      var front := fragments[..|fragments| - 1];
      var q := Stitch(c.g, p, front, c.depth);
      && CandidateChain(c, p, front)
      && q.Ok? && fragments[|fragments| - 1] in c.forward(q.value)
      && (front != [] ==> c.extendWhile(q.value))
  }

  /** The item's path summarises the journey that its fragments make up, each of them a candidate. */
  ghost predicate TracksWalks(c: Search, item: Item, us: seq<Walk>) {
    && Appended(c.g, item.fragments, us, c.origin)
    && c.mayStartAt(us[0][0])
    && Stitched(c, item) && CandidateChain(c, item.fragments[0].path, item.fragments[1..])
    && Arrived(c, item.path, Journey(c.g, [us[0][0]], us, c.origin))
  }

  ghost predicate Arrived(c: Search, p: PartialPath, w: Walk) {
    Summary(c.g, p, w, c.origin) && Passable(c.g, w, c.origin) && Shaped(p, c.origin)
  }

  ghost predicate Tracked(c: Search, item: Item) {
    exists us :: TracksWalks(c, item, us)
  }

  ghost predicate AllTracked(c: Search, items: seq<Item>) {
    forall i :: 0 <= i < |items| ==> Tracked(c, items[i])
  }

  /** The invariant of the worklist. */
  ghost predicate Orderly(c: Search, f: Fifo<Seen, Item>) {
    && f.initial <= |f.pending|
    && AllTracked(c, f.pending)
    && forall i :: 0 <= i < f.initial ==> |f.pending[i].fragments| == 1
  }

  ghost predicate IsCandidate(c: Search, p: PartialPath, f: Fragment) {
    f in c.forward(p)
  }

  /** What a candidate must be: it continues where the path ends, and stands for a walk. */
  ghost predicate Fits(c: Search, p: PartialPath, f: Fragment) {
    f.StartNode() == p.endNode && exists u :: Describes(c.g, f, u)
  }

  ghost predicate Sensible(c: Search) {
    c.g.AttachedScopesExist() && forall p, f :: IsCandidate(c, p, f) ==> Fits(c, p, f)
  }

  /** An initial path of a search. */
  ghost predicate IsInitial(c: Search, p: PartialPath) {
    && MayStart(c.g, p.startNode, c.origin) && c.mayStartAt(p.startNode)
    && InitialPath(c.g, p.startNode, c.origin) == Ok(p)
  }

  lemma InitialTracked(c: Search, p: PartialPath)
    requires c.g.AttachedScopesExist() && IsInitial(c, p)
    ensures Tracked(c, Item(p, [PathFragment(p)], false))
  {
    var n := p.startNode;
    var us: seq<Walk> := [[n]];
    InitialSummary(c.g, n, c.origin);
    StartPassable(c.g, p, [n], c.origin);
    var none: seq<Walk> := [];
    assert us[..|us| - 1] == none && Consecutive(c.g, [n], none, c.origin);
    assert Splice([n], [n]) == [n] && Journey(c.g, [n], us, c.origin) == [n];
    var item := Item(p, [PathFragment(p)], false);
    assert item.fragments[1..] == [] && us[1..] == none;
    assert TracksWalks(c, item, us);
  }

  /** The item is to be extended. */
  predicate MayExtend(c: Search, item: Item) {
    |item.fragments| == 1 || c.extendWhile(item.path)
  }

  /** An extension with a candidate is tracked again. */
  lemma ExtensionTracked(c: Search, item: Item, f: Fragment, p: PartialPath, hasSplit: bool)
    requires Sensible(c) && Tracked(c, item) && MayExtend(c, item) && f in c.forward(item.path)
    requires AppendFragment(c.g, item.path, f, c.depth) == Ok(p)
    ensures Tracked(c, Item(p, item.fragments + [f], hasSplit))
  {
    hide AppendFragment, StartsWith, DescribeAll, Arrived, Journey, Consecutive, Stitched, CandidateChain, Describes;
    var us :| TracksWalks(c, item, us);
    assert IsCandidate(c, item.path, f);
    var u :| Describes(c.g, f, u);
    var j := Item(p, item.fragments + [f], hasSplit);
    ExtensionStitched(c, item, j, f);
    ExtensionChained(c, item, f);
    var w := Journey(c.g, [us[0][0]], us, c.origin);
    ExtensionArrives(c, item.path, w, f, u, p);
    AppendedMore(c.g, item.fragments, us, c.origin, f, u);
    assert j.fragments[0] == item.fragments[0];
    assert TracksWalks(c, j, us + [u]);
  }

  lemma ExtensionStitched(c: Search, item: Item, j: Item, next: Fragment)
    requires Stitched(c, item) && j.fragments == item.fragments + [next]
    requires AppendFragment(c.g, item.path, next, c.depth) == Ok(j.path)
    ensures Stitched(c, j)
  {
    hide AppendFragment;
    assert j.fragments[1..] == item.fragments[1..] + [next];
    assert j.fragments[1..][..|item.fragments| - 1] == item.fragments[1..];
  }

  lemma ExtensionChained(c: Search, item: Item, f: Fragment)
    requires Stitched(c, item) && CandidateChain(c, item.fragments[0].path, item.fragments[1..])
    requires MayExtend(c, item) && f in c.forward(item.path)
    ensures CandidateChain(c, item.fragments[0].path, (item.fragments + [f])[1..])
  {
    hide Stitch;
    var longer := (item.fragments + [f])[1..];
    assert longer[..|longer| - 1] == item.fragments[1..];
  }

  lemma ExtensionArrives(c: Search, path: PartialPath, w: Walk, f: Fragment, u: Walk, p: PartialPath)
    requires c.g.AttachedScopesExist() && Arrived(c, path, w)
    requires Describes(c.g, f, u) && f.StartNode() == path.endNode
    requires AppendFragment(c.g, path, f, c.depth) == Ok(p)
    ensures Last(w) == u[0] && Arrived(c, p, Settle(c.g, Splice(w, u), c.origin))
  {
    hide AppendFragment, Describes, Passable, Open, FromEmptyStacks;
    SummaryOf(c.g, path, w, c.origin);
    DescribedStart(c.g, f, u);
    AppendFragmentSummary(c.g, path, w, f, u, c.depth, c.origin);
    if c.origin == Nowhere {
      AppendFromEmptyStacks(c.g, path, w, f, u, c.depth, c.origin);
    }
  }

  lemma AppendedMore(g: Graph, fragments: seq<Fragment>, us: seq<Walk>, o: Origin, f: Fragment, u: Walk)
    requires Appended(g, fragments, us, o) && Describes(g, f, u) && Last(Journey(g, [us[0][0]], us, o)) == u[0]
    ensures Appended(g, fragments + [f], us + [u], o)
    ensures Journey(g, [us[0][0]], us + [u], o) == Settle(g, Splice(Journey(g, [us[0][0]], us, o), u), o)
  {
    hide StartsWith, Describes, Settle;
    var longer := us + [u];
    assert longer[..|us|] == us;
    assert (fragments + [f])[1..] == fragments[1..] + [f] && longer[1..] == us[1..] + [u];
  }

  /** The walk of the initial node alone adds nothing to a journey. */
  lemma JourneyFromFirst(g: Graph, us: seq<Walk>, o: Origin)
    requires us != [] && us[0] == [us[0][0]] && !g.Kind(us[0][0]).JumpTo? && Consecutive(g, [us[0][0]], us, o)
    ensures Consecutive(g, us[0], us[1..], o) && Journey(g, us[0], us[1..], o) == Journey(g, us[0], us, o)
  {
    var n := us[0][0];
    var none: seq<Walk>, first: seq<Walk> := [], [[n]];
    assert first[..0] == none && Journey(g, [n], none, o) == [n] && Splice([n], [n]) == [n];
    assert us == first + us[1..];
    JourneyConcat(g, [n], first, us[1..], o);
  }

  /** Whatever fragments stitch to has arrived. */
  lemma StitchedArrives(c: Search, item: Item, us: seq<Walk>)
    requires c.g.AttachedScopesExist() && Appended(c.g, item.fragments, us, c.origin) && Stitched(c, item)
    ensures Arrived(c, item.path, Journey(c.g, [us[0][0]], us, c.origin))
  {
    hide Journey, Consecutive, Stitch, Summary, Passable, Open, FromEmptyStacks, InitialPath;
    var n := us[0][0];
    JourneyFromFirst(c.g, us, c.origin);
    InitialSummary(c.g, n, c.origin);
    var p := item.fragments[0].path;
    StitchSummary(c.g, p, [n], item.fragments[1..], us[1..], c.depth, c.origin);
    if c.origin == Nowhere {
      StitchFromEmptyStacks(c.g, p, [n], item.fragments[1..], us[1..], c.depth, c.origin);
    }
  }

  /** The item that a tracked item has been led on from. */
  lemma TrackedFront(c: Search, item: Item) returns (parent: Item, f: Fragment)
    requires c.g.AttachedScopesExist() && Tracked(c, item) && |item.fragments| > 1
    ensures Tracked(c, parent) && MayExtend(c, parent) && f in c.forward(parent.path)
    ensures item.fragments == parent.fragments + [f] && AppendFragment(c.g, parent.path, f, c.depth) == Ok(item.path)
  {
    hide Journey, AppendFragment, StartsWith, Describes, Arrived;
    var us :| TracksWalks(c, item, us);
    var k := |item.fragments| - 1;
    var front := item.fragments[1..][..k - 1];
    f := item.fragments[k];
    assert front == item.fragments[..k][1..] && item.fragments[1..][k - 1] == f;
    parent := Item(Stitch(c.g, item.fragments[0].path, front, c.depth).value, item.fragments[..k], item.hasSplit);
    assert us[..k][1..] == us[1..][..k - 1];
    StitchedArrives(c, parent, us[..k]);
    assert TracksWalks(c, parent, us[..k]);
    assert item.fragments == parent.fragments + [f];
  }

  /**
   The cycle check panics only on a path with a cycle that passes a jump.  If there is any room on the call stack,
   it even takes a choice from attached scopes, or a cycle whose postcondition has lost a variable.
   */
  lemma CheckFailsAtJumps(c: Search, item: Item)
    requires c.g.AttachedScopesExist() && Tracked(c, item) && CheckFails(c, item)
    ensures !CyclesAvoidJumps(c.g, item.fragments)
    ensures c.depth > 0 ==> !CyclesSound(c.g, item.fragments, c.depth)
  {
    hide Appended, Journey, Consecutive, Summary, Passable, Detected, CyclesAvoidJumps, CyclesSound;
    var us :| TracksWalks(c, item, us);
    assert Travelled(c.g, item.fragments, us, c.origin);
    if CyclesAvoidJumps(c.g, item.fragments) {
      DetectorReports(c.g, item.fragments, us, c.origin, c.depth);
    }
    if c.depth > 0 && CyclesSound(c.g, item.fragments, c.depth) {
      DetectorThroughJumps(c.g, item.fragments, us, c.origin, c.depth);
    }
  }

  lemma {:induction false} ExtensionsTracked(c: Search, item: Item, candidates: seq<Fragment>)
    requires Sensible(c) && Tracked(c, item) && MayExtend(c, item)
    requires forall f :: f in candidates ==> f in c.forward(item.path)
    ensures AllTracked(c, Extensions(c, item, candidates))
  {
    hide Tracked, AppendFragment, Sensible;
    if candidates != [] {
      var f := candidates[|candidates| - 1];
      assert f in candidates;
      ExtensionsTracked(c, item, candidates[..|candidates| - 1]);
      var p := AppendFragment(c.g, item.path, f, c.depth);
      if p.Ok? {
        ExtensionTracked(c, item, f, p.value, item.hasSplit);
      }
    }
  }

  lemma SplitTracked(c: Search, item: Item, hasSplit: bool)
    requires Tracked(c, item)
    ensures Tracked(c, item.(hasSplit := hasSplit))
  {
    hide Appended, Arrived, CandidateChain, Stitch;
    var us :| TracksWalks(c, item, us);
    assert TracksWalks(c, item.(hasSplit := hasSplit), us);
  }

  lemma SplitsTracked(c: Search, items: seq<Item>, hasSplit: bool)
    requires AllTracked(c, items)
    ensures AllTracked(c, WithSplit(items, hasSplit))
  {
    hide Tracked;
    forall i | 0 <= i < |items|
      ensures Tracked(c, WithSplit(items, hasSplit)[i])
    {
      SplitTracked(c, items[i], hasSplit);
    }
  }

  lemma {:induction false} KeptTracked(c: Search, seen: Seen, items: seq<Item>)
    requires AllTracked(c, items)
    ensures AllTracked(c, KeepItems(c, seen, items).items)
  {
    hide KeepItem, Tracked;
    if items != [] {
      KeptTracked(c, seen, items[..|items| - 1]);
      KeptOrNot(c, KeepItems(c, seen, items[..|items| - 1]).seen, items[|items| - 1]);
    }
  }

  lemma KeptOrNot(c: Search, seen: Seen, item: Item)
    ensures KeepItem(c, seen, item).items == [] || KeepItem(c, seen, item).items == [item]
  {
  }

  /** Extending a tracked path gives tracked paths. */
  lemma ExtendItemTracked(c: Search, seen: Seen, item: Item)
    requires Sensible(c) && Tracked(c, item) && MayExtend(c, item)
    ensures AllTracked(c, ExtendItem(c, seen, item).items)
  {
    hide Tracked, KeepItems, Discontinued, Extensions, Sensible;
    var extensions := Extensions(c, item, c.forward(item.path));
    var hasSplit := item.hasSplit || |extensions| > 1;
    ExtensionsTracked(c, item, c.forward(item.path));
    SplitsTracked(c, extensions, hasSplit);
    KeptTracked(c, seen, WithSplit(extensions, hasSplit));
  }

  /** One step keeps the worklist orderly. */
  lemma StepOrderly(c: Search, f: Fifo<Seen, Item>)
    requires Sensible(c) && Orderly(c, f)
    ensures Orderly(c, Worklists.Step(RulesOf(c), f))
    ensures AllTracked(c, Added(RulesOf(c), f))
  {
    hide Tracked, ExtendItem, Sensible;
    if f.pending != [] && (f.initial > 0 || c.extendWhile(f.pending[0].path)) {
      ExtendItemTracked(c, f.state, f.pending[0]);
    }
  }

  /** Over any number of steps, the worklist stays orderly and whatever is discovered is tracked. */
  lemma {:induction false} RunsOrderly(c: Search, f: Fifo<Seen, Item>, n: nat)
    requires Sensible(c) && Orderly(c, f)
    ensures Orderly(c, Steps(RulesOf(c), f, n))
    ensures AllTracked(c, Discovered(RulesOf(c), f, n))
  {
    hide Orderly, Tracked, Sensible, Added, Worklists.Step;
    if n > 0 {
      RunsOrderly(c, f, n - 1);
      StepOrderly(c, Steps(RulesOf(c), f, n - 1));
    }
  }

  // ---------------------------------------------------------------------------------------------
  // The stitcher itself

  class ForwardPartialPathStitcher {
    var queue: seq<Item>
    var nextIteration: seq<Item>
    var initialPathsInQueue: nat
    const similar: SimilarPathDetector?
    var maxWorkPerPhase: nat
    /** What the similar path detector has seen. */
    ghost var seen: Seen

    /** What is queued and what has been found in the last phase, as one worklist. */
    ghost function View(): Fifo<Seen, Item>
      reads this
    {
      Fifo(queue + nextIteration, initialPathsInQueue, seen)
    }

    ghost predicate Valid(c: Search)
      reads this, similar
    {
      && (similar != null <==> seen.Some?)
      && (similar != null ==> similar.Holds(seen.value))
      && Orderly(c, View())
    }

    constructor (initialPaths: seq<PartialPath>, detectSimilar: bool, maxWork: nat, ghost c: Search)
      requires c.g.AttachedScopesExist() && forall p :: p in initialPaths ==> IsInitial(c, p)
      ensures Valid(c) && queue == [] && nextIteration == InitialItems(initialPaths) && maxWorkPerPhase == maxWork
      ensures View() == Start(initialPaths, detectSimilar)
      ensures similar != null ==> fresh(similar)
    {
      queue := [];
      nextIteration := InitialItems(initialPaths);
      initialPathsInQueue := |initialPaths|;
      maxWorkPerPhase := maxWork;
      if detectSimilar {
        similar := new SimilarPathDetector(false);
        seen := Some(Detector(map[]));
      } else {
        similar := null;
        seen := None;
      }
      StartOrderly(c, initialPaths, detectSimilar);
    }

    predicate IsComplete()
      reads this
    {
      queue == [] && nextIteration == []
    }

    /** Appends every candidate that can be appended. */
    method TryCandidates(c: Search, item: Item, candidates: seq<Fragment>) returns (extensions: seq<Item>)
      ensures extensions == Extensions(c, item, candidates)
    {
      extensions := [];
      for i := 0 to |candidates|
        invariant extensions == Extensions(c, item, candidates[..i])
      {
        assert candidates[..i + 1][..i] == candidates[..i];
        var p := AppendFragment(c.g, item.path, candidates[i], c.depth);
        if p.Err? {
          continue;
        }
        extensions := extensions + [Item(p.value, item.fragments + [candidates[i]], item.hasSplit)];
      }
      assert candidates[..|candidates|] == candidates;
    }

    /** Hands an extension on to the next iteration, unless it is similar to another. */
    method Keep(c: Search, item: Item)
      requires Valid(c) && Tracked(c, item)
      modifies this`nextIteration, this`seen, similar
      ensures var kept := KeepItem(c, old(seen), item);
              nextIteration == old(nextIteration) + kept.items && seen == kept.seen
      ensures Valid(c)
    {
      hide Tracked, Key, OfferTo;
      ghost var last := KeepItem(c, seen, item);
      var rejected := false;
      if similar != null && ChecksSimilar(c, item) {
        rejected := similar.AddPath(item.path, seen.value);
      }
      seen := last.seen;
      assert nextIteration + [] == nextIteration;
      if !rejected {
        nextIteration := nextIteration + [item];
        assert queue + nextIteration == old(queue + nextIteration) + [item];
      }
    }

    method KeepDissimilar(c: Search, extensions: seq<Item>)
      requires Valid(c) && AllTracked(c, extensions)
      modifies this`nextIteration, this`seen, similar
      ensures var kept := KeepItems(c, old(seen), extensions);
              nextIteration == old(nextIteration) + kept.items && seen == kept.seen
      ensures Valid(c)
    {
      hide Tracked, KeepItem, Valid;
      ghost var before := nextIteration;
      ghost var seenBefore := seen;
      for i := 0 to |extensions|
        invariant Valid(c)
        invariant var kept := KeepItems(c, seenBefore, extensions[..i]);
                  nextIteration == before + kept.items && seen == kept.seen
      {
        assert extensions[..i + 1][..i] == extensions[..i];
        Keep(c, extensions[i]);
      }
      assert extensions[..|extensions|] == extensions;
    }

    /** Extends one path; the result is the number of candidates tried. */
    method Extend(c: Search, item: Item) returns (performed: nat, panicked: bool)
      requires Sensible(c) && Valid(c) && Tracked(c, item) && MayExtend(c, item)
      modifies this`nextIteration, this`seen, similar
      ensures panicked <==> CheckFails(c, item)
      ensures performed == if Discontinued(c, item) then 0 else |c.forward(item.path)|
      ensures var e := ExtendItem(c, old(seen), item);
              performed == e.performed && nextIteration == old(nextIteration) + e.items && seen == e.state
      ensures Valid(c)
    {
      hide KeepItems, Extensions, Tracked, Detected, Valid, Sensible;
      if ChecksCycles(c, item.path) {
        var cycles := DetectCycles(c.g, item.fragments, c.depth);
        if cycles.Err? {
          return 0, true;
        }
        if Forbidden(item.path, cycles.value) {
          return 0, false;
        }
      }
      panicked := false;
      var candidates := c.forward(item.path);
      ExtensionsTracked(c, item, candidates);
      var extensions := TryCandidates(c, item, candidates);
      SplitsTracked(c, extensions, item.hasSplit || |extensions| > 1);
      KeepDissimilar(c, WithSplit(extensions, item.hasSplit || |extensions| > 1));
      performed := |candidates|;
    }

    /** Takes the first path off the queue and extends it, unless it is not to be extended. */
    method ProcessNext(c: Search) returns (extended: bool, performed: nat, panicked: bool, ghost asked: seq<Item>)
      requires Sensible(c) && Valid(c) && queue != []
      modifies this`queue, this`nextIteration, this`initialPathsInQueue, this`seen, similar
      ensures Valid(c) && queue == old(queue)[1..]
      ensures panicked <==> PanicsAt(c, old(View()), 0)
      ensures var rules := RulesOf(c);
              && View() == Worklists.Step(rules, old(View()))
              && nextIteration == old(nextIteration) + Added(rules, old(View()))
              && extended == Extends(rules, old(View())) && performed == Performed(rules, old(View()))
      ensures !extended ==> performed == 0
      ensures asked == if old(initialPathsInQueue) > 0 then [] else [old(queue)[0]]
    {
      hide ExtendItem, Tracked, Sensible, CheckFails;
      ghost var before := View();
      ghost var found := nextIteration;
      var item := queue[0];
      assert before.pending[0] == item && before.pending[1..] == queue[1..] + found;
      queue := queue[1..];
      asked := [];
      panicked := false;
      if initialPathsInQueue > 0 {
        initialPathsInQueue := initialPathsInQueue - 1;
      } else {
        asked := [item];
        if !c.extendWhile(item.path) {
          return false, 0, false, asked;
        }
      }
      assert Valid(c);
      performed, panicked := Extend(c, item);
      extended := true;
      assert queue + nextIteration == (queue + found) + Added(RulesOf(c), before);
    }

    /**
     One phase.  It takes steps of the worklist until the queue is empty or its work comes up to the bound;
     afterwards, `nextIteration` holds what these steps have discovered.  `extendWhile` is asked about exactly
     the paths that the worklist asks it about.  A panic leaves the rest of the phase undone.
     */
    method ProcessNextPhase(c: Search) returns (panicked: bool, ghost steps: nat, ghost asked: seq<Item>)
      requires Sensible(c) && Valid(c)
      modifies this`queue, this`nextIteration, this`initialPathsInQueue, this`seen, similar
      ensures Valid(c)
      ensures panicked <==> exists k: nat :: k < steps && PanicsAt(c, old(View()), k)
      ensures var rules := RulesOf(c);
              && View() == Steps(rules, old(View()), steps)
              && nextIteration == Discovered(rules, old(View()), steps)
              && asked == Asked(rules, old(View()), steps)
      ensures old(IsComplete()) <==> steps == 0
      ensures !panicked ==> PhaseOf(RulesOf(c), old(View()), maxWorkPerPhase, steps)
      ensures panicked ==> steps > 0 && PanicsAt(c, old(View()), steps - 1)
      ensures forall k: nat :: k + 1 < steps ==> !PanicsAt(c, old(View()), k)
    {
      hide RulesOf, Added, Worklists.Step, StateAfter, Sensible, PanicsAt, Tracked, Extends, Performed;
      queue := queue + nextIteration;
      nextIteration := [];
      ghost var start := View();
      assert queue + nextIteration == old(queue + nextIteration);
      assert start == old(View());
      ghost var rules := RulesOf(c);
      steps, asked := 0, [];
      panicked := false;
      var workPerformed := 0;
      while queue != []
        invariant Valid(c) && !panicked
        invariant forall k: nat :: k < steps ==> !PanicsAt(c, start, k)
        invariant View() == Steps(rules, start, steps)
        invariant nextIteration == Discovered(rules, start, steps)
        invariant asked == Asked(rules, start, steps)
        invariant |queue| == |start.pending| - steps
        invariant workPerformed == Work(rules, start, steps)
        invariant forall k: nat :: k < steps && Extends(rules, Steps(rules, start, k)) ==>
                    Work(rules, start, k + 1) < maxWorkPerPhase
        invariant steps == 0 ==> queue == start.pending
        invariant steps > 0 ==> start.pending != []
        decreases |queue|
      {
        assert View().pending[0] == queue[0];
        PanicsLater(c, start, steps);
        var extended, performed, failed, askedNow := ProcessNext(c);
        steps := steps + 1;
        asked := asked + askedNow;
        if failed {
          panicked := true;
          return;
        }
        if !extended {
          continue;
        }
        workPerformed := workPerformed + performed;
        if workPerformed >= maxWorkPerPhase {
          break;
        }
      }
    }
  }

  lemma PanicsLater(c: Search, f: Fifo<Seen, Item>, k: nat)
    ensures PanicsAt(c, f, k) <==> PanicsAt(c, Steps(RulesOf(c), f, k), 0)
  {
    assert Steps(RulesOf(c), Steps(RulesOf(c), f, k), 0) == Steps(RulesOf(c), f, k);
  }

  function InitialItems(paths: seq<PartialPath>): seq<Item> {
    seq(|paths|, i requires 0 <= i < |paths| => Item(paths[i], [PathFragment(paths[i])], false))
  }

  /** The worklist that a search starts with. */
  ghost function Start(paths: seq<PartialPath>, detectSimilar: bool): Fifo<Seen, Item> {
    Fifo(InitialItems(paths), |paths|, if detectSimilar then Some(Detector(map[])) else None)
  }

  lemma StartOrderly(c: Search, paths: seq<PartialPath>, detectSimilar: bool)
    requires c.g.AttachedScopesExist() && forall p :: p in paths ==> IsInitial(c, p)
    ensures Orderly(c, Start(paths, detectSimilar))
  {
    hide Tracked, IsInitial;
    forall i | 0 <= i < |paths|
      ensures Tracked(c, InitialItems(paths)[i])
    {
      assert paths[i] in paths;
      InitialTracked(c, paths[i]);
    }
  }
}
