/**
 What the similarity check of a search does turn away.  Of two paths that are found after the way to them has
 split, and that end at a node which many candidates lead to, the later one is not like the earlier one, unless it
 shadows it.  Nothing else is ever turned away.
 */
module ComparedPaths {
  import opened Wrappers
  import opened Graphs
  import opened Unification
  import opened PartialPaths
  import opened Stitching
  import opened Shadowing
  import opened SimilarPaths
  import opened Worklists
  import opened Stitcher
  import opened SearchCoverage
  import opened RecordedPaths
  import opened SimilarSearch

  // ---------------------------------------------------------------------------------------------
  // Later paths differ from earlier ones

  /** The bucket has a path in place of this one: the path itself, or one like it that shadows it. */
  ghost predicate StandsFor(links: Precedences, q: PartialPath, p: PartialPath) {
    Alike(p, q) && Real(links, q.edges) && (q == p || Shadows(q.edges, p.edges))
  }

  ghost predicate HeldIn(links: Precedences, b: Bucket, p: PartialPath) {
    exists i :: 0 <= i < |b.paths| && StandsFor(links, b.paths[i], p)
  }

  /** Every item that has been compared is held, or one in its place. */
  ghost predicate AllHeld(c: Search, links: Precedences, d: Detector, items: seq<Item>) {
    forall i :: 0 <= i < |items| && Compared(c, items[i]) ==> HeldIn(links, d.At(Key(items[i].path)), items[i].path)
  }

  ghost predicate LaterDiffers(p: PartialPath, q: PartialPath) {
    Alike(q, p) ==> Shadows(q.edges, p.edges)
  }

  /** No compared item is like an earlier one that it does not shadow. */
  ghost predicate AllDiffer(c: Search, items: seq<Item>) {
    forall i, j :: 0 <= i < j < |items| && Compared(c, items[i]) && Compared(c, items[j]) ==>
      LaterDiffers(items[i].path, items[j].path)
  }

  ghost predicate RealItems(links: Precedences, items: seq<Item>) {
    forall i :: 0 <= i < |items| ==> Real(links, items[i].path.edges)
  }

  /** After an offer that is not turned away, the bucket holds what is offered, and what it held or better. */
  lemma OfferHolds(links: Precedences, b: Bucket, p: PartialPath, q: PartialPath)
    requires b.Valid() && Real(links, p.edges) && Real(links, q.edges) && HeldIn(links, b, q)
    ensures HeldIn(links, OfferTo(b, p).bucket, q)
    ensures !OfferTo(b, p).similar ==> LaterDiffers(q, p)
  {
    hide Alike, Shadows, Real;
    var i :| 0 <= i < |b.paths| && StandsFor(links, b.paths[i], q);
    var after := OfferTo(b, p).bucket;
    match Position(b.paths, p)
    case None =>
      assert after.paths[i] == b.paths[i];
      if Alike(p, q) {
        AlikeTransitive(p, q, b.paths[i]);
      }
    case Some(at) =>
      if Shadows(p.edges, b.paths[at].edges) {
        BetterHolds(links, b, p, q, i, at);
      } else {
        assert after.paths[i] == b.paths[i];
      }
  }

  lemma BetterHolds(links: Precedences, b: Bucket, p: PartialPath, q: PartialPath, i: nat, at: nat)
    requires b.Valid() && Real(links, p.edges) && Real(links, q.edges)
    requires i < |b.paths| && StandsFor(links, b.paths[i], q)
    requires Position(b.paths, p) == Some(at) && Shadows(p.edges, b.paths[at].edges)
    ensures HeldIn(links, OfferTo(b, p).bucket, q) && LaterDiffers(q, p)
  {
    hide Shadows, Real;
    var after := OfferTo(b, p).bucket;
    if Alike(p, q) {
      AlikeTransitive(p, q, b.paths[i]);
      OnlyOneAlike(b, p, i, at);
    }
    if i == at {
      if b.paths[at] != q {
        ShadowsTransitive(links, p.edges, b.paths[at].edges, q.edges);
      }
      assert after.paths[|after.paths| - 1] == p;
      assert StandsFor(links, p, q);
    } else {
      assert after.paths[if i < at then i else i - 1] == b.paths[i];
    }
  }

  /** Whatever is kept is held. */
  lemma KeptHeld(links: Precedences, b: Bucket, p: PartialPath)
    requires b.Valid() && Real(links, p.edges) && !OfferTo(b, p).similar
    ensures HeldIn(links, OfferTo(b, p).bucket, p)
  {
    hide Shadows, Real;
    var after := OfferTo(b, p).bucket;
    assert after.paths[|after.paths| - 1] == p;
  }

  lemma NotHeldUnlike(links: Precedences, b: Bucket, p: PartialPath, q: PartialPath)
    requires Key(p) != Key(q)
    ensures LaterDiffers(q, p)
  {
    if Alike(p, q) {
      AlikeShareKey(p, q);
    }
  }

  /** One item handed on. */
  lemma KeepDiffers(c: Search, links: Precedences, seen: Seen, found: seq<Item>, item: Item)
    requires seen.Some? && AllHeld(c, links, seen.value, found) && AllDiffer(c, found)
    requires RealItems(links, found) && Real(links, item.path.edges)
    ensures var r := KeepItem(c, seen, item);
            && r.seen.Some? && RealItems(links, found + r.items)
            && AllHeld(c, links, r.seen.value, found + r.items) && AllDiffer(c, found + r.items)
  {
    hide HeldIn, LaterDiffers, OfferTo, Key, Real;
    var r := KeepItem(c, seen, item);
    var d, k := seen.value, Key(item.path);
    assert found + [] == found;
    if Compared(c, item) {
      forall i | 0 <= i < |found| && Compared(c, found[i])
        ensures HeldIn(links, r.seen.value.At(Key(found[i].path)), found[i].path)
        ensures r.items != [] ==> LaterDiffers(found[i].path, item.path)
      {
        if Key(found[i].path) == k {
          OfferHolds(links, d.At(k), item.path, found[i].path);
        } else {
          NotHeldUnlike(links, d.At(k), item.path, found[i].path);
        }
      }
      if r.items != [] {
        KeptHeld(links, d.At(k), item.path);
      }
    }
  }

  lemma {:induction false} KeepAllDiffer(c: Search, links: Precedences, seen: Seen, found: seq<Item>, items: seq<Item>)
    requires seen.Some? && AllHeld(c, links, seen.value, found) && AllDiffer(c, found)
    requires RealItems(links, found) && RealItems(links, items)
    ensures var r := KeepItems(c, seen, items);
            && r.seen.Some? && RealItems(links, found + r.items)
            && AllHeld(c, links, r.seen.value, found + r.items) && AllDiffer(c, found + r.items)
  {
    hide KeepItem, AllHeld, AllDiffer, Real;
    if items == [] {
      assert found + [] == found;
    } else {
      var front, last := items[..|items| - 1], items[|items| - 1];
      KeepAllDiffer(c, links, seen, found, front);
      var before := KeepItems(c, seen, front);
      KeepDiffers(c, links, before.seen, found + before.items, last);
      assert found + KeepItems(c, seen, items).items ==
             (found + before.items) + KeepItem(c, before.seen, last).items;
    }
  }

  lemma RecordedReal(links: Precedences, items: seq<Item>, hasSplit: bool)
    requires AllRecorded(links, items)
    ensures RealItems(links, WithSplit(items, hasSplit)) && RealItems(links, items)
  {
    hide Recorded, Real;
    forall i | 0 <= i < |items|
      ensures Real(links, items[i].path.edges)
    {
      RecordedIsReal(links, items[i].path);
    }
  }

  /** What is known of a run's detector and of all that the run has found. */
  ghost predicate Differing(c: Search, links: Precedences, seen: Seen, found: seq<Item>) {
    seen.Some? && RealItems(links, found) && AllHeld(c, links, seen.value, found) && AllDiffer(c, found)
  }

  lemma StepDiffers(c: Search, links: Precedences, f: Fifo<Seen, Item>, found: seq<Item>)
    requires Sensible(c) && RecordedSearch(c, links) && AllRecorded(links, f.pending)
    requires Differing(c, links, f.state, found)
    ensures Differing(c, links, Worklists.Step(RulesOf(c), f).state, found + Added(RulesOf(c), f))
  {
    hide Sensible, RecordedSearch, Recorded, RealItems, AllHeld, AllDiffer, KeepItems, Extensions, Discontinued;
    assert found + [] == found;
    if f.pending != [] {
      var item := f.pending[0];
      var extensions := Extensions(c, item, c.forward(item.path));
      var hasSplit := item.hasSplit || |extensions| > 1;
      ExtensionsRecorded(c, links, item, c.forward(item.path));
      RecordedReal(links, extensions, hasSplit);
      KeepAllDiffer(c, links, f.state, found, WithSplit(extensions, hasSplit));
    }
  }

  /** The run starts with a new detector, and with paths that were none of many. */
  ghost predicate StartsDetecting(f: Fifo<Seen, Item>) {
    f.state == Some(Detector(map[])) && forall i :: 0 <= i < |f.pending| ==> !f.pending[i].hasSplit
  }

  lemma StartDiffers(c: Search, links: Precedences, f: Fifo<Seen, Item>)
    requires AllRecorded(links, f.pending) && StartsDetecting(f)
    ensures Differing(c, links, f.state, f.pending)
  {
    hide Recorded;
    RecordedReal(links, f.pending, false);
  }

  lemma {:induction false} RunDiffers(c: Search, links: Precedences, f: Fifo<Seen, Item>, n: nat)
    requires Sensible(c) && RecordedSearch(c, links) && AllRecorded(links, f.pending) && StartsDetecting(f)
    ensures Differing(c, links, Steps(RulesOf(c), f, n).state, All(c, f, n))
  {
    hide Sensible, RecordedSearch, AllRecorded, RulesOf, Worklists.Step, Added, Differing;
    if n == 0 {
      assert All(c, f, 0) == f.pending;
      StartDiffers(c, links, f);
    } else {
      RunDiffers(c, links, f, n - 1);
      RunRecorded(c, links, f, n - 1);
      StepDiffers(c, links, Steps(RulesOf(c), f, n - 1), All(c, f, n - 1));
      AllGrows(c, f, n - 1);
    }
  }

  /**
   In any run with a detector: of two paths found that have split, and end at the same join (or at any node, if all
   are looked at), the later one is not equal to the earlier one but for its edges, unless its walk is preferred.
   */
  lemma LaterIsBetter(c: Search, links: Precedences, f: Fifo<Seen, Item>, n: nat, i: nat, j: nat)
    requires Sensible(c) && RecordedSearch(c, links) && AllRecorded(links, f.pending) && StartsDetecting(f)
    requires i < j < |All(c, f, n)| && All(c, f, n)[i].hasSplit && All(c, f, n)[j].hasSplit
    requires c.onlyJoins ==> c.isJoin(All(c, f, n)[j].path.endNode)
    requires var p, q := All(c, f, n)[i].path, All(c, f, n)[j].path;
             && p.startNode == q.startNode && p.endNode == q.endNode
             && p.symbolPre == q.symbolPre && p.scopePre == q.scopePre
             && p.symbolPost == q.symbolPost && p.scopePost == q.scopePost
    ensures forall w, u ::
              Records(links, w, All(c, f, n)[j].path.edges) && Records(links, u, All(c, f, n)[i].path.edges) ==>
                Preferred(links, w, u)
  {
    hide Sensible, RecordedSearch, AllRecorded, AllHeld, RealItems, Shadows, Preferred, Records;
    RunDiffers(c, links, f, n);
    var p, q := All(c, f, n)[i].path, All(c, f, n)[j].path;
    assert LaterDiffers(p, q);
    forall w, u | Records(links, w, q.edges) && Records(links, u, p.edges)
      ensures Preferred(links, w, u)
    {
      ShadowsByPrecedence(links, w, q.edges, u, p.edges);
    }
  }

  /** So it is in the searches: they start with paths that are none of many. */
  lemma StartDetects(c: Search, links: Precedences, paths: seq<PartialPath>)
    requires c.g.AttachedScopesExist() && forall p :: p in paths ==> IsInitial(c, p)
    ensures StartsDetecting(Start(paths, true)) && AllRecorded(links, Start(paths, true).pending)
  {
    StartRecorded(c, links, paths, true);
  }

  // ---------------------------------------------------------------------------------------------
  // When a path has split

  /** Candidates at two places of the lookup can be appended to the path. */
  ghost predicate Branches(c: Search, p: PartialPath) {
    exists i, j :: 0 <= i < j < |c.forward(p)| && CanAppend(c, p, c.forward(p)[i]) && CanAppend(c, p, c.forward(p)[j])
  }

  predicate CanAppend(c: Search, p: PartialPath, f: Fragment) {
    AppendFragment(c.g, p, f, c.depth).Ok?
  }

  lemma {:induction false} ExtensionCount(c: Search, item: Item, candidates: seq<Fragment>)
    ensures |Extensions(c, item, candidates)| > 0 <==>
            exists i :: 0 <= i < |candidates| && CanAppend(c, item.path, candidates[i])
    ensures |Extensions(c, item, candidates)| > 1 <==>
            exists i, j :: 0 <= i < j < |candidates| && CanAppend(c, item.path, candidates[i]) &&
                           CanAppend(c, item.path, candidates[j])
  {
    hide AppendFragment;
    if candidates != [] {
      var k := |candidates| - 1;
      ExtensionCount(c, item, candidates[..k]);
      assert candidates == candidates[..k] + [candidates[k]];
      if CanAppend(c, item.path, candidates[k]) {
        if i :| 0 <= i < |candidates[..k]| && CanAppend(c, item.path, candidates[..k][i]) {
          assert CanAppend(c, item.path, candidates[i]);
        }
      }
    }
  }

  /** What the first `k` fragments of the item stitch to could be extended in more ways than one. */
  ghost predicate BranchesAt(c: Search, item: Item, k: nat) {
    && 0 < k <= |item.fragments| && item.fragments[0].PathFragment?
    && var p := Stitch(c.g, item.fragments[0].path, item.fragments[1..k], c.depth);
       p.Ok? && Branches(c, p.value)
  }

  ghost predicate BranchesBefore(c: Search, item: Item) {
    exists k :: 0 < k < |item.fragments| && BranchesAt(c, item, k)
  }

  ghost predicate AllSplitRight(c: Search, items: seq<Item>) {
    forall i :: 0 <= i < |items| ==> (items[i].hasSplit <==> BranchesBefore(c, items[i]))
  }

  lemma ExtensionBranches(c: Search, item: Item, j: Item, f: Fragment)
    requires Stitched(c, item) && j.fragments == item.fragments + [f]
    ensures BranchesBefore(c, j) <==> BranchesBefore(c, item) || Branches(c, item.path)
  {
    hide Stitch, Branches;
    forall k | 0 < k <= |item.fragments|
      ensures BranchesAt(c, j, k) <==> BranchesAt(c, item, k)
    {
      assert j.fragments[1..k] == item.fragments[1..k];
    }
    assert BranchesAt(c, item, |item.fragments|) <==> Branches(c, item.path);
    if BranchesBefore(c, item) {
      var k :| 0 < k < |item.fragments| && BranchesAt(c, item, k);
      assert BranchesAt(c, j, k);
    }
    if Branches(c, item.path) {
      assert BranchesAt(c, j, |item.fragments|);
    }
  }

  lemma AddedSplit(c: Search, seen: Seen, item: Item, j: Item)
    requires j in ExtendItem(c, seen, item).items
    ensures j.hasSplit <==> item.hasSplit || Branches(c, item.path)
  {
    hide Extensions, KeepItems, Discontinued, CanAppend;
    var extensions := Extensions(c, item, c.forward(item.path));
    var hasSplit := item.hasSplit || |extensions| > 1;
    ExtensionCount(c, item, c.forward(item.path));
    KeptItem(c, seen, WithSplit(extensions, hasSplit), j);
  }

  lemma StepSplit(c: Search, f: Fifo<Seen, Item>)
    requires AllStitched(c, f.pending) && AllSplitRight(c, f.pending)
    ensures AllSplitRight(c, Worklists.Step(RulesOf(c), f).pending) && AllSplitRight(c, Added(RulesOf(c), f))
  {
    hide Stitched, ExtendItem, AppendFragment, Branches, BranchesBefore;
    var added := Added(RulesOf(c), f);
    forall i | 0 <= i < |added|
      ensures added[i].hasSplit <==> BranchesBefore(c, added[i])
    {
      var next := ExtendedBy(c, f.state, f.pending[0], added[i]);
      AddedSplit(c, f.state, f.pending[0], added[i]);
      ExtensionBranches(c, f.pending[0], added[i], next);
    }
  }

  lemma SplitConcat(c: Search, a: seq<Item>, b: seq<Item>)
    requires AllSplitRight(c, a) && AllSplitRight(c, b)
    ensures AllSplitRight(c, a + b)
  {
    hide BranchesBefore;
  }

  /** A path found has split exactly if one of those on the way to it could be extended in more ways than one. */
  lemma {:induction false} RunSplit(c: Search, f: Fifo<Seen, Item>, n: nat)
    requires AllStitched(c, f.pending) && NodesOnly(f.pending)
    requires forall i :: 0 <= i < |f.pending| ==> !f.pending[i].hasSplit
    ensures AllSplitRight(c, Steps(RulesOf(c), f, n).pending) && AllSplitRight(c, All(c, f, n))
  {
    hide RulesOf, Worklists.Step, Added, Stitched;
    if n == 0 {
      StartSplit(c, f);
      assert All(c, f, 0) == f.pending;
    } else {
      hide AllSplitRight, NodesOnly;
      RunSplit(c, f, n - 1);
      RunStitched(c, f, n - 1);
      StepSplit(c, Steps(RulesOf(c), f, n - 1));
      AllGrows(c, f, n - 1);
      SplitConcat(c, All(c, f, n - 1), Added(RulesOf(c), Steps(RulesOf(c), f, n - 1)));
    }
  }

  lemma StartSplit(c: Search, f: Fifo<Seen, Item>)
    requires NodesOnly(f.pending) && forall i :: 0 <= i < |f.pending| ==> !f.pending[i].hasSplit
    ensures AllSplitRight(c, f.pending)
  {
    forall i | 0 <= i < |f.pending|
      ensures !BranchesBefore(c, f.pending[i])
    {
      assert f.pending[i] in f.pending;
    }
  }

  // ---------------------------------------------------------------------------------------------
  // Nothing else is turned away

  lemma {:induction false} UncomparedKept(c: Search, seen: Seen, items: seq<Item>, i: nat)
    requires i < |items| && (seen.None? || !Compared(c, items[i]))
    ensures items[i] in KeepItems(c, seen, items).items
  {
    var k := |items| - 1;
    if i < k {
      UncomparedKept(c, seen, items[..k], i);
    }
  }

  /** An extension is turned away only by a detector, and only if it has split and ends at a join. */
  lemma OnlyComparedTurnedAway(c: Search, seen: Seen, item: Item, fragments: seq<Fragment>)
    returns (f: Fragment, p: PartialPath)
    requires TurnedAway(c, seen, item, fragments)
    ensures f in c.forward(item.path) && fragments == item.fragments + [f]
    ensures AppendFragment(c.g, item.path, f, c.depth) == Ok(p)
    ensures seen.Some? && (item.hasSplit || Branches(c, item.path))
    ensures c.onlyJoins ==> c.isJoin(p.endNode)
  {
    hide Extensions, KeepItems, Discontinued, AppendFragment, CanAppend;
    var candidates := c.forward(item.path);
    var extensions := Extensions(c, item, candidates);
    var hasSplit := item.hasSplit || |extensions| > 1;
    var j :| j in extensions && j.fragments == fragments;
    f := ExtensionOf(c, item, candidates, j);
    p := j.path;
    var i :| 0 <= i < |extensions| && extensions[i] == j;
    ExtensionCount(c, item, candidates);
    var offered := WithSplit(extensions, hasSplit);
    assert offered[i].fragments == fragments && offered[i].path == p;
    if seen.None? || !Compared(c, offered[i]) {
      UncomparedKept(c, seen, offered, i);
    }
  }
}
