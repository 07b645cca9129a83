/**
 What the similarity check of a search can lose: nothing but duplicates.  Whatever it turns away is like a path
 that is found, and what could have been stitched to the one can be stitched to the other.  So of everything that
 candidates can be stitched to, a path with the same ends and conditions is found, unless the cycle check has
 stopped one of the paths that stand in for those on the way.
 */
module SimilarSearch {
  import opened Wrappers
  import opened Graphs
  import opened Patterns
  import opened Unification
  import opened PartialPaths
  import opened Exactness
  import opened Stitching
  import Complete = CompletePaths
  import opened Shadowing
  import opened SimilarPaths
  import opened Worklists
  import opened Stitcher
  import opened SearchCoverage
  import opened RecordedPaths
  import opened CycleDetection
  import opened MinimalPathSet
  import opened SegmentSearch
  import opened PathFinding
  import opened DatabaseSearch
  import Index = RootIndex

  // ---------------------------------------------------------------------------------------------
  // The detector's state is that of its offers

  /**
   The items that are compared with what has been found before: those that were one of many on the way, and end
   at a node that many candidates lead to, or at any node if all nodes are looked at.
   */
  predicate Compared(c: Search, item: Item) {
    item.hasSplit && (c.onlyJoins ==> c.isJoin(item.path.endNode))
  }

  /** The paths among the items that are compared. */
  ghost function Offered(c: Search, items: seq<Item>): seq<PartialPath> {
    if items == [] then []
    else
      var last := items[|items| - 1];
      Offered(c, items[..|items| - 1]) + if Compared(c, last) then [last.path] else []
  }

  /** The extensions that a step offers. */
  ghost function StepOffers(c: Search, f: Fifo<Seen, Item>): seq<PartialPath> {
    if f.pending != [] && (f.initial > 0 || c.extendWhile(f.pending[0].path)) && !Discontinued(c, f.pending[0]) then
      var extensions := Extensions(c, f.pending[0], c.forward(f.pending[0].path));
      Offered(c, WithSplit(extensions, f.pending[0].hasSplit || |extensions| > 1))
    else []
  }

  ghost function RunOffers(c: Search, f: Fifo<Seen, Item>, n: nat): seq<PartialPath> {
    if n == 0 then [] else RunOffers(c, f, n - 1) + StepOffers(c, Steps(RulesOf(c), f, n - 1))
  }

  lemma OfferSnoc(offers: seq<PartialPath>, p: PartialPath)
    ensures var d := OfferAll(offers).detector;
            OfferAll(offers + [p]).detector == Detector(d.buckets[Key(p) := OfferTo(d.At(Key(p)), p).bucket])
  {
    hide OfferTo, Key;
    assert (offers + [p])[..|offers|] == offers;
  }

  lemma {:induction false} ItemsOffered(c: Search, offers: seq<PartialPath>, items: seq<Item>)
    ensures KeepItems(c, Some(OfferAll(offers).detector), items).seen ==
            Some(OfferAll(offers + Offered(c, items)).detector)
  {
    hide OfferTo, Key;
    if items == [] {
      assert offers + [] == offers;
    } else {
      var front, last := items[..|items| - 1], items[|items| - 1];
      ItemsOffered(c, offers, front);
      var before := offers + Offered(c, front);
      if Compared(c, last) {
        OfferSnoc(before, last.path);
        assert offers + Offered(c, items) == before + [last.path];
      } else {
        assert offers + Offered(c, items) == before;
      }
    }
  }

  lemma StepOffered(c: Search, f: Fifo<Seen, Item>, offers: seq<PartialPath>)
    requires f.state == Some(OfferAll(offers).detector)
    ensures Worklists.Step(RulesOf(c), f).state == Some(OfferAll(offers + StepOffers(c, f)).detector)
  {
    hide KeepItems, Extensions, Discontinued, Offered, OfferTo, OfferAll;
    assert offers + [] == offers;
    if f.pending != [] && (f.initial > 0 || c.extendWhile(f.pending[0].path)) && !Discontinued(c, f.pending[0]) {
      var extensions := Extensions(c, f.pending[0], c.forward(f.pending[0].path));
      ItemsOffered(c, offers, WithSplit(extensions, f.pending[0].hasSplit || |extensions| > 1));
    }
  }

  /** After any number of steps, the detector is in the state that its offers have brought it to. */
  lemma {:induction false} RunOffered(c: Search, f: Fifo<Seen, Item>, n: nat)
    requires f.state == Some(Detector(map[]))
    ensures Steps(RulesOf(c), f, n).state == Some(OfferAll(RunOffers(c, f, n)).detector)
  {
    hide RulesOf, Worklists.Step, StepOffers;
    if n > 0 {
      hide OfferAll;
      RunOffered(c, f, n - 1);
      StepOffered(c, Steps(RulesOf(c), f, n - 1), RunOffers(c, f, n - 1));
    }
  }

  lemma {:induction false} OfferedRecorded(c: Search, links: Precedences, items: seq<Item>)
    requires AllRecorded(links, items)
    ensures RealOffers(links, Offered(c, items))
  {
    hide Recorded, Real, Compared;
    if items != [] {
      OfferedRecorded(c, links, items[..|items| - 1]);
      RecordedIsReal(links, items[|items| - 1].path);
    }
  }

  lemma StepOffersReal(c: Search, links: Precedences, f: Fifo<Seen, Item>)
    requires Sensible(c) && RecordedSearch(c, links) && AllRecorded(links, f.pending)
    ensures RealOffers(links, StepOffers(c, f))
  {
    hide Sensible, RecordedSearch, Recorded, Real, Discontinued, Extensions, Offered;
    if f.pending != [] {
      var item := f.pending[0];
      var extensions := Extensions(c, item, c.forward(item.path));
      ExtensionsRecorded(c, links, item, c.forward(item.path));
      OfferedRecorded(c, links, WithSplit(extensions, item.hasSplit || |extensions| > 1));
    }
  }

  lemma NothingOffered(links: Precedences)
    ensures RealOffers(links, [])
  {
  }

  lemma MoreOffers(links: Precedences, a: seq<PartialPath>, b: seq<PartialPath>)
    requires RealOffers(links, a) && RealOffers(links, b)
    ensures RealOffers(links, a + b)
  {
  }

  lemma {:induction false} RunOffersReal(c: Search, links: Precedences, f: Fifo<Seen, Item>, n: nat)
    requires Sensible(c) && RecordedSearch(c, links) && AllRecorded(links, f.pending)
    ensures RealOffers(links, RunOffers(c, f, n))
  {
    hide Sensible, RecordedSearch, AllRecorded, RealOffers, StepOffers, RulesOf;
    if n == 0 {
      NothingOffered(links);
    } else {
      RunOffersReal(c, links, f, n - 1);
      RunRecorded(c, links, f, n - 1);
      StepOffersReal(c, links, Steps(RulesOf(c), f, n - 1));
      MoreOffers(links, RunOffers(c, f, n - 1), StepOffers(c, Steps(RulesOf(c), f, n - 1)));
    }
  }

  /** In any run of a search over recorded paths, every bucket represents all that has been offered to it. */
  lemma RunRepresents(c: Search, links: Precedences, f: Fifo<Seen, Item>, n: nat, k: PathKey)
    requires Sensible(c) && RecordedSearch(c, links) && AllRecorded(links, f.pending)
    requires f.state == Some(Detector(map[]))
    ensures var state := Steps(RulesOf(c), f, n).state;
            && state.Some?
            && Represents(state.value.At(k), k, RunOffers(c, f, n), OfferAll(RunOffers(c, f, n)).rejected)
  {
    hide Sensible, RecordedSearch, AllRecorded, Represents;
    RunOffered(c, f, n);
    RunOffersReal(c, links, f, n);
    BucketsRepresentOffers(links, RunOffers(c, f, n), k);
  }

  // ---------------------------------------------------------------------------------------------
  // What is turned away is like something found

  ghost predicate PathFound(items: seq<Item>, p: PartialPath) {
    exists j :: 0 <= j < |items| && items[j].path == p
  }

  ghost predicate LikeFound(items: seq<Item>, p: PartialPath) {
    exists j :: 0 <= j < |items| && Alike(p, items[j].path)
  }

  /** Every path that the detector keeps is one of these. */
  ghost predicate BucketsFound(seen: Seen, items: seq<Item>) {
    seen.Some? ==>
      forall k, i :: k in seen.value.buckets && 0 <= i < |seen.value.buckets[k].paths| ==>
        PathFound(items, seen.value.buckets[k].paths[i])
  }

  lemma PathFoundMore(a: seq<Item>, b: seq<Item>, p: PartialPath)
    requires PathFound(a, p) || PathFound(b, p)
    ensures PathFound(a + b, p)
  {
    if j :| 0 <= j < |a| && a[j].path == p {
      assert (a + b)[j].path == p;
    } else {
      var j :| 0 <= j < |b| && b[j].path == p;
      assert (a + b)[|a| + j].path == p;
    }
  }

  lemma LikeFoundMore(a: seq<Item>, b: seq<Item>, p: PartialPath)
    requires LikeFound(a, p) || LikeFound(b, p)
    ensures LikeFound(a + b, p)
  {
    if j :| 0 <= j < |a| && Alike(p, a[j].path) {
      assert (a + b)[j].path == a[j].path;
    } else {
      var j :| 0 <= j < |b| && Alike(p, b[j].path);
      assert (a + b)[|a| + j].path == b[j].path;
    }
  }

  /** One offer keeps the item, or there is a path like it; and the detector keeps found paths only. */
  lemma KeptOrLike(c: Search, seen: Seen, found: seq<Item>, item: Item)
    requires BucketsFound(seen, found)
    ensures var r := KeepItem(c, seen, item);
            && BucketsFound(r.seen, found + r.items)
            && LikeFound(found + r.items, item.path)
  {
    hide PathFound, LikeFound;
    var r := KeepItem(c, seen, item);
    if seen.None? || !ChecksSimilar(c, item) {
      KeptIsLike(found, item);
      FoundBuckets(seen, found, r.items);
    } else {
      var k := Key(item.path);
      var b := seen.value.At(k);
      var offer := OfferTo(b, item.path);
      if offer.similar {
        var i := Position(b.paths, item.path).value;
        assert found + r.items == found;
        FoundIsLike(found, item.path, b.paths[i]);
      } else {
        KeptIsLike(found, item);
        forall j | 0 <= j < |offer.bucket.paths|
          ensures PathFound(found + [item], offer.bucket.paths[j])
        {
          OfferedFrom(b, item.path, j);
          ItemFound(found, item, offer.bucket.paths[j], b.paths);
        }
        FoundBuckets(seen, found, [item]);
      }
      if offer.similar {
        assert offer.bucket.paths == b.paths;
      }
    }
  }

  lemma KeptIsLike(found: seq<Item>, item: Item)
    ensures LikeFound(found + [item], item.path)
  {
    assert (found + [item])[|found|].path == item.path;
  }

  lemma FoundIsLike(found: seq<Item>, p: PartialPath, q: PartialPath)
    requires PathFound(found, q) && Alike(p, q)
    ensures LikeFound(found, p)
  {
  }

  lemma FoundBuckets(seen: Seen, found: seq<Item>, more: seq<Item>)
    requires BucketsFound(seen, found)
    ensures BucketsFound(seen, found + more)
  {
    hide PathFound;
    if seen.Some? {
      forall k, i | k in seen.value.buckets && 0 <= i < |seen.value.buckets[k].paths|
        ensures PathFound(found + more, seen.value.buckets[k].paths[i])
      {
        PathFoundMore(found, more, seen.value.buckets[k].paths[i]);
      }
    }
  }

  /** A path of the bucket after an offer was there before, or is the one offered. */
  lemma OfferedFrom(b: Bucket, p: PartialPath, j: nat)
    requires b.Valid() && j < |OfferTo(b, p).bucket.paths|
    ensures OfferTo(b, p).bucket.paths[j] == p || OfferTo(b, p).bucket.paths[j] in b.paths
  {
  }

  lemma ItemFound(found: seq<Item>, item: Item, q: PartialPath, paths: seq<PartialPath>)
    requires q == item.path || q in paths
    requires forall i :: 0 <= i < |paths| ==> PathFound(found, paths[i])
    ensures PathFound(found + [item], q)
  {
    if q == item.path {
      assert (found + [item])[|found|].path == q;
    } else {
      PathFoundMore(found, [item], q);
    }
  }

  lemma {:induction false} AllKeptOrLike(c: Search, seen: Seen, found: seq<Item>, items: seq<Item>)
    requires BucketsFound(seen, found)
    ensures var r := KeepItems(c, seen, items);
            && BucketsFound(r.seen, found + r.items)
            && forall j :: 0 <= j < |items| ==> LikeFound(found + r.items, items[j].path)
  {
    hide KeepItem, BucketsFound, LikeFound;
    if items == [] {
      assert found + [] == found;
    } else {
      var front, last := items[..|items| - 1], items[|items| - 1];
      AllKeptOrLike(c, seen, found, front);
      var before := KeepItems(c, seen, front);
      KeptOrLike(c, before.seen, found + before.items, last);
      var r := KeepItems(c, seen, items);
      var more := KeepItem(c, before.seen, last).items;
      assert found + r.items == (found + before.items) + more;
      forall j | 0 <= j < |items|
        ensures LikeFound(found + r.items, items[j].path)
      {
        if j < |front| {
          assert front[j] == items[j];
          LikeFoundMore(found + before.items, more, items[j].path);
        }
      }
    }
  }

  lemma StepBuckets(c: Search, f: Fifo<Seen, Item>, found: seq<Item>)
    requires BucketsFound(f.state, found)
    ensures BucketsFound(Worklists.Step(RulesOf(c), f).state, found + Added(RulesOf(c), f))
  {
    hide BucketsFound, KeepItems, Extensions, Discontinued, LikeFound;
    assert found + [] == found;
    if f.pending != [] {
      var item := f.pending[0];
      var extensions := Extensions(c, item, c.forward(item.path));
      AllKeptOrLike(c, f.state, found, WithSplit(extensions, item.hasSplit || |extensions| > 1));
    }
  }

  lemma NoBuckets(f: Fifo<Seen, Item>)
    requires f.state == None || f.state == Some(Detector(map[]))
    ensures BucketsFound(f.state, f.pending)
  {
  }

  lemma {:induction false} RunBuckets(c: Search, f: Fifo<Seen, Item>, n: nat)
    requires f.state == None || f.state == Some(Detector(map[]))
    ensures BucketsFound(Steps(RulesOf(c), f, n).state, All(c, f, n))
  {
    hide RulesOf, Worklists.Step, Added, BucketsFound;
    if n == 0 {
      assert All(c, f, 0) == f.pending;
      NoBuckets(f);
    } else {
      RunBuckets(c, f, n - 1);
      StepBuckets(c, Steps(RulesOf(c), f, n - 1), All(c, f, n - 1));
      AllGrows(c, f, n - 1);
    }
  }

  /** Whatever a step could add, it or a path like it has then been found. */
  lemma StepLike(c: Search, f: Fifo<Seen, Item>, found: seq<Item>, next: Fragment, q: PartialPath)
    requires BucketsFound(f.state, found) && f.pending != [] && !Discontinued(c, f.pending[0])
    requires f.initial > 0 || c.extendWhile(f.pending[0].path)
    requires next in c.forward(f.pending[0].path)
    requires AppendFragment(c.g, f.pending[0].path, next, c.depth) == Ok(q)
    ensures LikeFound(found + Added(RulesOf(c), f), q)
  {
    hide BucketsFound, KeepItems, Extensions, Discontinued, LikeFound, AppendFragment;
    var item := f.pending[0];
    var extensions := Extensions(c, item, c.forward(item.path));
    var items := WithSplit(extensions, item.hasSplit || |extensions| > 1);
    AllKeptOrLike(c, f.state, found, items);
    var i := ExtensionWith(c, item, c.forward(item.path), next, q);
    assert items[i].path == q;
    assert Added(RulesOf(c), f) == KeepItems(c, f.state, items).items;
  }

  // ---------------------------------------------------------------------------------------------
  // Alike paths can stand in for one another

  lemma AlikeEdgeAppended(g: Graph, p: PartialPath, q: PartialPath, e: Edge)
    requires Alike(p, q) && AppendEdge(g, p, e).Ok?
    ensures AppendEdge(g, q, e).Ok? && Alike(AppendEdge(g, p, e).value, AppendEdge(g, q, e).value)
  {
    hide LargestAttached, SubstStack, SubstScopes;
    assert q == p.(edges := q.edges);
  }

  lemma AlikePathAppended(g: Graph, p: PartialPath, q: PartialPath, next: PartialPath, depth: nat)
    requires Alike(p, q) && AppendPath(g, p, next, depth).Ok?
    ensures AppendPath(g, q, next, depth).Ok?
    ensures Alike(AppendPath(g, p, next, depth).value, AppendPath(g, q, next, depth).value)
  {
    hide LargestAttached, SubstStack, SubstScopes, UnifyStacks, HalfOpenPre, HalfOpenPost;
    assert q == p.(edges := q.edges);
  }

  lemma AlikeAppended(g: Graph, p: PartialPath, q: PartialPath, f: Fragment, depth: nat)
    requires Alike(p, q) && AppendFragment(g, p, f, depth).Ok?
    ensures AppendFragment(g, q, f, depth).Ok?
    ensures Alike(AppendFragment(g, p, f, depth).value, AppendFragment(g, q, f, depth).value)
  {
    hide Alike, AppendEdge, AppendPath;
    match f
    case EdgeFragment(e) => AlikeEdgeAppended(g, p, q, e);
    case PathFragment(next) => AlikePathAppended(g, p, q, next, depth);
  }

  lemma AlikeRelates(p: PartialPath, q: PartialPath)
    requires Alike(p, q)
    ensures forall s, t :: Relates(p, s, t) <==> Relates(q, s, t)
    ensures forall g :: Complete.IsComplete(g, p) <==> Complete.IsComplete(g, q)
  {
    forall val: Valuation
      ensures Before(p, val) == Before(q, val) && After(p, val) == After(q, val)
    {
    }
  }

  /** The candidates for a path, and whether it is extended, do not depend on its edges. */
  ghost predicate RespectsAlike(c: Search) {
    forall p, q :: Alike(p, q) ==> c.forward(p) == c.forward(q) && c.extendWhile(p) == c.extendWhile(q)
  }

  /** An item found stands in for the path, and the cycle check has stopped it. */
  ghost predicate StandInStopped(c: Search, f: Fifo<Seen, Item>, n: nat, q: PartialPath) {
    exists m :: 0 <= m < |All(c, f, n)| && Alike(q, All(c, f, n)[m].path) && Discontinued(c, All(c, f, n)[m])
  }

  /** On the way to what these fragments stitch to, after the first `k`, a path that stands in has been stopped. */
  ghost predicate StoppedAfter(c: Search, f: Fifo<Seen, Item>, n: nat, p: PartialPath, fragments: seq<Fragment>, k: nat)
    requires k <= |fragments|
  {
    var q := Stitch(c.g, p, fragments[..k], c.depth);
    q.Ok? && StandInStopped(c, f, n, q.value)
  }

  ghost predicate StoppedOnTheWay(c: Search, f: Fifo<Seen, Item>, n: nat, p: PartialPath, fragments: seq<Fragment>) {
    exists k :: 0 <= k < |fragments| && StoppedAfter(c, f, n, p, fragments, k)
  }

  lemma {:induction false} AllPrefix(c: Search, f: Fifo<Seen, Item>, k: nat, n: nat)
    requires k <= n
    ensures All(c, f, k) <= All(c, f, n)
  {
    hide All, RulesOf, Added, Steps, Processed;
    if k < n {
      AllPrefix(c, f, k, n - 1);
      AllGrows(c, f, n - 1);
    }
  }

  lemma LikeFoundLater(c: Search, f: Fifo<Seen, Item>, k: nat, n: nat, q: PartialPath)
    requires k <= n && LikeFound(All(c, f, k), q)
    ensures LikeFound(All(c, f, n), q)
  {
    hide All;
    AllPrefix(c, f, k, n);
    var j :| 0 <= j < |All(c, f, k)| && Alike(q, All(c, f, k)[j].path);
    assert All(c, f, n)[j] == All(c, f, k)[j];
  }

  /** From an item that is like the path, the next one is found too, or the cycle check has stopped it. */
  lemma NextLike(c: Search, f: Fifo<Seen, Item>, n: nat, m: nat, p: PartialPath, next: Fragment, q: PartialPath)
    requires IsComplete(c, f, n) && m < |All(c, f, n)| && Alike(p, All(c, f, n)[m].path)
    requires f.state == None || f.state == Some(Detector(map[]))
    requires m < f.initial || c.extendWhile(All(c, f, n)[m].path)
    requires next in c.forward(All(c, f, n)[m].path) && AppendFragment(c.g, p, next, c.depth) == Ok(q)
    ensures LikeFound(All(c, f, n), q) || Discontinued(c, All(c, f, n)[m])
  {
    hide Discontinued, LikeFound, AppendFragment, RulesOf, Worklists.Step, Added, BucketsFound, All, Alike;
    var item := All(c, f, n)[m];
    if !Discontinued(c, item) {
      ItemProcessed(c, f, n, m);
      RunBuckets(c, f, m);
      AlikeAppended(c.g, p, item.path, next, c.depth);
      var r := AppendFragment(c.g, item.path, next, c.depth).value;
      var at := Steps(RulesOf(c), f, m);
      assert at.initial > 0 || c.extendWhile(at.pending[0].path);
      StepLike(c, at, All(c, f, m), next, r);
      AllGrows(c, f, m);
      LikeFoundLater(c, f, m + 1, n, r);
      LikeOfLike(All(c, f, n), q, r);
    }
  }

  lemma LikeOfLike(items: seq<Item>, q: PartialPath, r: PartialPath)
    requires Alike(q, r) && LikeFound(items, r)
    ensures LikeFound(items, q)
  {
    var j :| 0 <= j < |items| && Alike(r, items[j].path);
    assert Alike(q, items[j].path);
  }

  /**
   With or without similar path detection: of whatever candidates can be stitched to an initial path, that or a
   path like it is found, unless the cycle check has stopped one that stands in for it on the way.
   */
  lemma {:induction false} StitchLikeFound(c: Search, f: Fifo<Seen, Item>, n: nat, p: PartialPath,
                                           fragments: seq<Fragment>)
    requires WholeRun(c, f, n) && Found(c, f, n, [PathFragment(p)]) && RespectsAlike(c)
    requires f.state == None || f.state == Some(Detector(map[]))
    requires CandidateChain(c, p, fragments) && Stitch(c.g, p, fragments, c.depth).Ok?
    ensures || LikeFound(All(c, f, n), Stitch(c.g, p, fragments, c.depth).value)
            || StoppedOnTheWay(c, f, n, p, fragments)
  {
    hide WholeRun, Found, AppendFragment, LikeFound, StandInStopped, RespectsAlike;
    if fragments == [] {
      StartLike(c, f, n, p);
    } else {
      var k := |fragments| - 1;
      var front := fragments[..k];
      StitchLikeFound(c, f, n, p, front);
      if StoppedOnTheWay(c, f, n, p, front) {
        var j :| 0 <= j < |front| && StoppedAfter(c, f, n, p, front, j);
        assert fragments[..j] == front[..j];
        assert StoppedAfter(c, f, n, p, fragments, j);
      } else {
        NextStandIn(c, f, n, p, front, fragments[k]);
        if !LikeFound(All(c, f, n), Stitch(c.g, p, fragments, c.depth).value) {
          assert StoppedAfter(c, f, n, p, fragments, k);
        }
      }
    }
  }

  lemma StartLike(c: Search, f: Fifo<Seen, Item>, n: nat, p: PartialPath)
    requires WholeRun(c, f, n) && Found(c, f, n, [PathFragment(p)])
    ensures exists m :: 0 <= m < |All(c, f, n)| && m < f.initial && All(c, f, n)[m].path == p
    ensures LikeFound(All(c, f, n), p)
  {
    hide IsComplete, All;
    var m :| 0 <= m < |All(c, f, n)| && All(c, f, n)[m].fragments == [PathFragment(p)];
    RunStitched(c, f, n);
    assert Stitched(c, All(c, f, n)[m]);
    assert [PathFragment(p)][1..] == [];
    SingleIsInitial(c, f, n, m);
  }

  lemma NextStandIn(c: Search, f: Fifo<Seen, Item>, n: nat, p: PartialPath, front: seq<Fragment>, next: Fragment)
    requires WholeRun(c, f, n) && Found(c, f, n, [PathFragment(p)]) && RespectsAlike(c)
    requires f.state == None || f.state == Some(Detector(map[]))
    requires var q := Stitch(c.g, p, front, c.depth);
             && q.Ok? && next in c.forward(q.value) && (front != [] ==> c.extendWhile(q.value))
             && LikeFound(All(c, f, n), q.value) && AppendFragment(c.g, q.value, next, c.depth).Ok?
    ensures var q := Stitch(c.g, p, front, c.depth).value;
            || LikeFound(All(c, f, n), AppendFragment(c.g, q, next, c.depth).value)
            || StandInStopped(c, f, n, q)
  {
    hide Found, AppendFragment, Discontinued, All, IsComplete, Alike;
    var q := Stitch(c.g, p, front, c.depth).value;
    var m: nat;
    if front == [] {
      StartLike(c, f, n, p);
      m :| m < |All(c, f, n)| && m < f.initial && All(c, f, n)[m].path == p;
      AlikeReflexive(p);
    } else {
      m :| m < |All(c, f, n)| && Alike(q, All(c, f, n)[m].path);
    }
    NextLike(c, f, n, m, q, next, AppendFragment(c.g, q, next, c.depth).value);
  }

  ghost predicate SameRelation(p: PartialPath, q: PartialPath) {
    forall s, t :: Relates(p, s, t) <==> Relates(q, s, t)
  }

  ghost predicate RelationVisited(visited: seq<PartialPath>, q: PartialPath) {
    exists p :: p in visited && SameRelation(q, p)
  }

  /** What a search for complete paths visits. */
  ghost function CompleteVisited(c: Search, f: Fifo<Seen, Item>, n: nat): seq<PartialPath> {
    Accepted(Discovered(RulesOf(c), f, n), (r: PartialPath) => Complete.IsComplete(c.g, r))
  }

  /**
   So a search for complete paths visits, for every resolution that candidates can be stitched to, that or one
   that relates the same stacks, unless the cycle check has stopped one that stands in for it on the way.
   */
  lemma ResolutionLikeVisited(c: Search, f: Fifo<Seen, Item>, n: nat, nodes: seq<NodeHandle>, detectSimilar: bool,
                              node: NodeHandle, fragments: seq<Fragment>)
    requires c.g.AttachedScopesExist() && SeeksCompletePaths(c) && RespectsAlike(c) && WholeRun(c, f, n)
    requires f == Start(ReferenceStarts(c.g, nodes), detectSimilar)
    requires node in nodes && c.g.Kind(node).IsReference() && LeadsToDefinition(c, node, fragments)
    ensures || StoppedOnTheWay(c, f, n, ReferenceStart(c.g, node), fragments)
            || RelationVisited(CompleteVisited(c, f, n),
                               Stitch(c.g, ReferenceStart(c.g, node), fragments, c.depth).value)
  {
    hide WholeRun, ReferenceStart, ReferenceStarts, RespectsAlike, CandidateChain, Complete.IsComplete, All, Accepted,
      Stitch, LikeFound, StoppedOnTheWay, Alike, SameRelation, IsInitial, CompleteVisited, Found;
    var start := ReferenceStart(c.g, node);
    ReferenceStartsInitial(c, nodes);
    StartFound(c, f, n, ReferenceStarts(c.g, nodes), detectSimilar, start);
    StitchLikeFound(c, f, n, start, fragments);
    var q := Stitch(c.g, start, fragments, c.depth).value;
    if LikeFound(All(c, f, n), q) {
      var p := CompleteLikeVisited(c, f, n, nodes, detectSimilar, q);
    }
  }

  lemma CompleteLikeVisited(c: Search, f: Fifo<Seen, Item>, n: nat, nodes: seq<NodeHandle>, detectSimilar: bool,
                            q: PartialPath) returns (p: PartialPath)
    requires c.g.AttachedScopesExist() && SeeksCompletePaths(c)
    requires f == Start(ReferenceStarts(c.g, nodes), detectSimilar)
    requires LikeFound(All(c, f, n), q) && Complete.IsComplete(c.g, q)
    ensures p in CompleteVisited(c, f, n) && SameRelation(q, p)
  {
    hide ReferenceStarts, Accepted, Discovered, RulesOf, Alike, IsInitial, Relates;
    var m :| 0 <= m < |All(c, f, n)| && Alike(q, All(c, f, n)[m].path);
    p := All(c, f, n)[m].path;
    AlikeRelates(q, p);
    ReferenceStartsInitial(c, nodes);
    if m < |f.pending| {
      assert p in ReferenceStarts(c.g, nodes);
      InitialIncomplete(c, p);
    }
    var found := Discovered(RulesOf(c), f, n);
    assert found[m - |f.pending|] == All(c, f, n)[m];
    AcceptedFrom(found, (r: PartialPath) => Complete.IsComplete(c.g, r), p);
  }

  /** No initial path is complete: it ends where it starts. */
  lemma InitialIncomplete(c: Search, p: PartialPath)
    requires c.g.AttachedScopesExist() && IsInitial(c, p)
    ensures !Complete.IsComplete(c.g, p)
  {
    InitialSummary(c.g, p.startNode, c.origin);
  }

  /** Looking candidates up in a database depends on where a path ends and on its symbols only. */
  lemma StoreRespectsAlike(store: Store)
    ensures RespectsAlike(SearchIn(store))
  {
    hide FragmentsAt;
    forall p, q | Alike(p, q)
      ensures Index.Candidates(store.g, store.paths, p) == Index.Candidates(store.g, store.paths, q)
    {
      assert q == p.(edges := q.edges);
    }
  }

  /** A search of stored paths that record walks finds paths that do. */
  lemma StoreRecorded(store: Store, links: Precedences)
    requires JumpsUnlinked(store.g, links) && forall p :: p in store.paths ==> Recorded(links, p)
    ensures RecordedSearch(SearchIn(store), links)
  {
    hide FragmentsAt, Index.Candidates, Recorded, Index.Continues;
    var c := SearchIn(store);
    forall p, f | IsCandidate(c, p, f)
      ensures RecordedFragment(links, f)
    {
      CandidatesAre(store, p, f);
    }
  }

  /** And so does the search of a file along edges of the graph. */
  lemma FileRecorded(file: File, links: Precedences)
    requires file.Valid() && JumpsUnlinked(file.g, links) && forall n :: InGraph(links, file.outgoing(n))
    ensures RecordedSearch(SearchOf(file), links)
  {
    var c := SearchOf(file);
    forall p, f | IsCandidate(c, p, f)
      ensures RecordedFragment(links, f)
    {
      CandidateEdges(file, p, f);
      assert InGraph(links, file.outgoing(p.endNode));
    }
  }
}
