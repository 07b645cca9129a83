/**
 What a search finds, whatever its candidates: everything that candidates can be stitched to one after the
 other, unless the cycle or the similarity check cuts it off; and nothing twice, if no candidate comes twice.
 */
module SearchCoverage {
  import opened Wrappers
  import opened Graphs
  import opened Unification
  import opened PartialPaths
  import opened Stitching
  import opened Worklists
  import opened Stitcher

  // ---------------------------------------------------------------------------------------------
  // What extending an item adds

  lemma {:induction false} ExtensionOf(c: Search, item: Item, candidates: seq<Fragment>, j: Item) returns (f: Fragment)
    requires j in Extensions(c, item, candidates)
    ensures f in candidates && AppendFragment(c.g, item.path, f, c.depth) == Ok(j.path) &&
            j.fragments == item.fragments + [f]
  {
    hide AppendFragment;
    var k := |candidates| - 1;
    if j in Extensions(c, item, candidates[..k]) {
      f := ExtensionOf(c, item, candidates[..k], j);
    } else {
      f := candidates[k];
    }
  }

  lemma {:induction false} KeptItem(c: Search, seen: Seen, items: seq<Item>, j: Item)
    requires j in KeepItems(c, seen, items).items
    ensures j in items
  {
    hide KeepItem;
    var k := |items| - 1;
    if items != [] {
      KeptOrNot(c, KeepItems(c, seen, items[..k]).seen, items[k]);
      if j in KeepItems(c, seen, items[..k]).items {
        KeptItem(c, seen, items[..k], j);
      }
    }
  }

  /** Whatever extending an item adds is that item, led on by one candidate. */
  lemma ExtendedBy(c: Search, seen: Seen, item: Item, j: Item) returns (f: Fragment)
    requires j in ExtendItem(c, seen, item).items
    ensures f in c.forward(item.path) && AppendFragment(c.g, item.path, f, c.depth) == Ok(j.path)
    ensures j.fragments == item.fragments + [f]
  {
    hide Extensions, KeepItems, AppendFragment, Discontinued;
    var candidates := c.forward(item.path);
    var extensions := Extensions(c, item, candidates);
    var hasSplit := item.hasSplit || |extensions| > 1;
    KeptItem(c, seen, WithSplit(extensions, hasSplit), j);
    var i :| 0 <= i < |extensions| && WithSplit(extensions, hasSplit)[i] == j;
    f := ExtensionOf(c, item, candidates, extensions[i]);
  }

  // ---------------------------------------------------------------------------------------------
  // Nothing is found twice

  /** No two items are stitched from the same fragments. */
  ghost predicate Distinct(items: seq<Item>) {
    forall i, j :: 0 <= i < j < |items| ==> items[i].fragments != items[j].fragments
  }

  ghost predicate DistinctFragments(fragments: seq<Fragment>) {
    forall i, j :: 0 <= i < j < |fragments| ==> fragments[i] != fragments[j]
  }

  lemma DistinctSnoc(items: seq<Item>, item: Item)
    requires Distinct(items) && forall i :: i in items ==> i.fragments != item.fragments
    ensures Distinct(items + [item])
  {
  }

  lemma DistinctConcat(a: seq<Item>, b: seq<Item>)
    requires Distinct(a) && Distinct(b)
    requires forall i, j :: i in a && j in b ==> i.fragments != j.fragments
    ensures Distinct(a + b)
  {
  }

  lemma {:induction false} ExtensionsDistinct(c: Search, item: Item, candidates: seq<Fragment>)
    requires DistinctFragments(candidates)
    ensures Distinct(Extensions(c, item, candidates))
  {
    hide AppendFragment;
    if candidates != [] {
      var k := |candidates| - 1;
      var front := Extensions(c, item, candidates[..k]);
      ExtensionsDistinct(c, item, candidates[..k]);
      forall j | j in front
        ensures j.fragments != item.fragments + [candidates[k]]
      {
        var f := ExtensionOf(c, item, candidates[..k], j);
        assert j.fragments[|item.fragments|] == f;
      }
      var p := AppendFragment(c.g, item.path, candidates[k], c.depth);
      if p.Ok? {
        DistinctSnoc(front, Item(p.value, item.fragments + [candidates[k]], item.hasSplit));
      }
    }
  }

  lemma {:induction false} KeptDistinct(c: Search, seen: Seen, items: seq<Item>)
    requires Distinct(items)
    ensures Distinct(KeepItems(c, seen, items).items)
  {
    hide KeepItem;
    if items != [] {
      var k := |items| - 1;
      var before := KeepItems(c, seen, items[..k]);
      KeptDistinct(c, seen, items[..k]);
      KeptOrNot(c, before.seen, items[k]);
      forall j | j in before.items
        ensures j.fragments != items[k].fragments
      {
        KeptItem(c, seen, items[..k], j);
      }
      DistinctSnoc(before.items, items[k]);
      assert before.items + [] == before.items;
    }
  }

  lemma AddedDistinct(c: Search, seen: Seen, item: Item)
    requires DistinctFragments(c.forward(item.path))
    ensures Distinct(ExtendItem(c, seen, item).items)
  {
    hide Extensions, KeepItems, Discontinued;
    var extensions := Extensions(c, item, c.forward(item.path));
    var hasSplit := item.hasSplit || |extensions| > 1;
    ExtensionsDistinct(c, item, c.forward(item.path));
    KeptDistinct(c, seen, WithSplit(extensions, hasSplit));
  }

  /** What is pending at the start and what `n` steps discover. */
  ghost function All(c: Search, f: Fifo<Seen, Item>, n: nat): seq<Item> {
    f.pending + Discovered(RulesOf(c), f, n)
  }

  /** The item continues another one by one fragment. */
  ghost predicate Continues(item: Item, parent: Item) {
    |item.fragments| == |parent.fragments| + 1 && item.fragments[..|parent.fragments|] == parent.fragments
  }

  ghost predicate HasParent(item: Item, processed: seq<Item>) {
    exists p :: p in processed && Continues(item, p)
  }

  ghost predicate AllHaveParents(items: seq<Item>, processed: seq<Item>) {
    forall j :: j in items ==> HasParent(j, processed)
  }

  ghost predicate NodesOnly(items: seq<Item>) {
    forall i :: i in items ==> |i.fragments| == 1
  }

  /** What is discovered continues what was processed. */
  ghost predicate Descended(c: Search, f: Fifo<Seen, Item>, n: nat) {
    AllHaveParents(Discovered(RulesOf(c), f, n), Processed(RulesOf(c), f, n))
  }

  /** What is discovered continues what was processed, and nothing is found twice. */
  ghost predicate Genealogy(c: Search, f: Fifo<Seen, Item>, n: nat) {
    Distinct(All(c, f, n)) && Descended(c, f, n)
  }

  ghost predicate DistinctCandidates(c: Search) {
    forall p :: DistinctFragments(c.forward(p))
  }

  lemma AddedNew(all: seq<Item>, k: nat, start: nat, added: seq<Item>)
    requires Distinct(all) && k < |all| && start <= |all|
    requires forall i :: 0 <= i < start ==> |all[i].fragments| == 1
    requires forall i :: start <= i < |all| ==> HasParent(all[i], all[..k])
    requires all[k].fragments != []
    requires forall j :: j in added ==> Continues(j, all[k])
    ensures forall i, j :: i in all && j in added ==> i.fragments != j.fragments
  {
    forall i, j | 0 <= i < |all| && j in added
      ensures all[i].fragments != j.fragments
    {
      if i >= start {
        var p :| p in all[..k] && Continues(all[i], p);
        var m :| 0 <= m < k && all[m] == p;
      }
    }
  }

  /** Where the worklist stands after `n` steps. */
  lemma HeadOf(c: Search, f: Fifo<Seen, Item>, n: nat)
    requires Steps(RulesOf(c), f, n).pending != []
    ensures var k := |Processed(RulesOf(c), f, n)|;
            && k < |All(c, f, n)| && All(c, f, n)[..k] == Processed(RulesOf(c), f, n)
            && All(c, f, n)[k] == Steps(RulesOf(c), f, n).pending[0]
  {
    hide RulesOf, Worklists.Step;
    NothingLost(RulesOf(c), f, n);
  }

  lemma AllGrows(c: Search, f: Fifo<Seen, Item>, n: nat)
    ensures All(c, f, n + 1) == All(c, f, n) + Added(RulesOf(c), Steps(RulesOf(c), f, n))
    ensures Processed(RulesOf(c), f, n) <= Processed(RulesOf(c), f, n + 1)
    ensures Steps(RulesOf(c), f, n).pending != [] ==>
              Processed(RulesOf(c), f, n + 1) == Processed(RulesOf(c), f, n) + [Steps(RulesOf(c), f, n).pending[0]]
  {
    hide RulesOf, Added, Worklists.Step;
  }

  lemma AddedToHead(c: Search, f: Fifo<Seen, Item>)
    requires Added(RulesOf(c), f) != []
    ensures f.pending != []
    ensures forall j :: j in Added(RulesOf(c), f) ==> Continues(j, f.pending[0])
    ensures DistinctCandidates(c) ==> Distinct(Added(RulesOf(c), f))
  {
    hide ExtendItem, DistinctFragments, Distinct;
    AddedBy(c, f.state, f.pending[0], Added(RulesOf(c), f));
    if DistinctCandidates(c) {
      AddedDistinct(c, f.state, f.pending[0]);
    }
  }

  lemma StepDistinct(c: Search, f: Fifo<Seen, Item>, n: nat)
    requires NodesOnly(f.pending) && Genealogy(c, f, n) && DistinctCandidates(c)
    ensures Distinct(All(c, f, n + 1))
  {
    hide RulesOf, Added, Worklists.Step, HasParent, DistinctCandidates, Steps, Discovered, Processed, Distinct;
    var rules := RulesOf(c);
    var added := Added(rules, Steps(rules, f, n));
    AllGrows(c, f, n);
    if added != [] {
      AddedToHead(c, Steps(rules, f, n));
      HeadOf(c, f, n);
      AllHaveFragments(c, f, n);
      AddedNew(All(c, f, n), |Processed(rules, f, n)|, |f.pending|, added);
      DistinctConcat(All(c, f, n), added);
    } else {
      assert All(c, f, n) + [] == All(c, f, n);
    }
  }

  lemma StepParents(c: Search, f: Fifo<Seen, Item>, n: nat)
    requires Descended(c, f, n)
    ensures Descended(c, f, n + 1)
  {
    hide RulesOf, Added, Worklists.Step, HasParent, Steps, Processed;
    var rules := RulesOf(c);
    var before := Steps(rules, f, n);
    AllGrows(c, f, n);
    var found, processed := Discovered(rules, f, n + 1), Processed(rules, f, n + 1);
    forall j | j in found
      ensures HasParent(j, processed)
    {
      if j in Added(rules, before) {
        AddedToHead(c, before);
        ParentLast(j, Processed(rules, f, n), before.pending[0]);
      } else {
        ParentKept(j, Processed(rules, f, n), Processed(rules, f, n + 1));
      }
    }
  }

  lemma AddedBy(c: Search, seen: Seen, item: Item, added: seq<Item>)
    requires added == ExtendItem(c, seen, item).items
    ensures forall j :: j in added ==> Continues(j, item)
  {
    hide ExtendItem;
    forall j | j in added
      ensures Continues(j, item)
    {
      var e := ExtendedBy(c, seen, item, j);
    }
  }

  lemma AllHaveFragments(c: Search, f: Fifo<Seen, Item>, n: nat)
    requires NodesOnly(f.pending) && Descended(c, f, n)
    ensures forall i :: i in All(c, f, n) ==> i.fragments != []
  {
    hide Added, Worklists.Step;
    forall i | i in Discovered(RulesOf(c), f, n)
      ensures i.fragments != []
    {
      assert HasParent(i, Processed(RulesOf(c), f, n));
    }
  }

  lemma ParentLast(j: Item, processed: seq<Item>, item: Item)
    requires Continues(j, item)
    ensures HasParent(j, processed + [item])
  {
    assert item in processed + [item];
  }

  lemma ParentKept(j: Item, processed: seq<Item>, more: seq<Item>)
    requires HasParent(j, processed) && processed <= more
    ensures HasParent(j, more)
  {
  }

  /** Over any number of steps, whatever is discovered continues something processed. */
  lemma {:induction false} RunDescended(c: Search, f: Fifo<Seen, Item>, n: nat)
    ensures Descended(c, f, n)
  {
    hide RulesOf, Worklists.Step, Added, Steps, HasParent;
    if n > 0 {
      RunDescended(c, f, n - 1);
      StepParents(c, f, n - 1);
    }
  }

  /** ... and no two items found are stitched from the same fragments, if no candidate comes twice. */
  lemma {:induction false} RunGenealogy(c: Search, f: Fifo<Seen, Item>, n: nat)
    requires NodesOnly(f.pending) && Distinct(f.pending) && DistinctCandidates(c)
    ensures Genealogy(c, f, n)
  {
    hide RulesOf, Worklists.Step, Added, Steps, DistinctCandidates, NodesOnly, Descended, Distinct;
    RunDescended(c, f, n);
    if n == 0 {
      assert All(c, f, 0) == f.pending;
    } else {
      RunGenealogy(c, f, n - 1);
      StepDistinct(c, f, n - 1);
    }
  }

  /** The item goes back to one of these. */
  ghost predicate HasRoot(item: Item, roots: seq<Item>) {
    exists i :: i in roots && i.fragments != [] && item.fragments != [] && i.fragments[0] == item.fragments[0]
  }

  ghost predicate AllHaveRoots(items: seq<Item>, roots: seq<Item>) {
    forall j :: j in items ==> HasRoot(j, roots)
  }

  /** Whatever is found goes back to what the search starts with. */
  lemma {:induction false} RunRooted(c: Search, f: Fifo<Seen, Item>, n: nat)
    requires NodesOnly(f.pending)
    ensures AllHaveRoots(All(c, f, n), f.pending)
  {
    hide RulesOf, Worklists.Step, Added, Steps, HasRoot, Discovered;
    if n == 0 {
      assert Discovered(RulesOf(c), f, 0) == [] by { StartDiscovers(c, f); }
      assert All(c, f, 0) == f.pending;
      forall j | j in f.pending
        ensures HasRoot(j, f.pending)
      {
        OwnRoot(j, f.pending);
      }
    } else {
      RunRooted(c, f, n - 1);
      AllGrows(c, f, n - 1);
      var before := Steps(RulesOf(c), f, n - 1);
      forall j | j in Added(RulesOf(c), before)
        ensures HasRoot(j, f.pending)
      {
        AddedToHead(c, before);
        HeadOf(c, f, n - 1);
        assert before.pending[0] in All(c, f, n - 1);
        RootKept(j, before.pending[0], f.pending);
      }
    }
  }

  lemma StartDiscovers(c: Search, f: Fifo<Seen, Item>)
    ensures Discovered(RulesOf(c), f, 0) == []
  {
  }

  lemma OwnRoot(j: Item, roots: seq<Item>)
    requires j in roots && j.fragments != []
    ensures HasRoot(j, roots)
  {
  }

  lemma RootKept(j: Item, parent: Item, roots: seq<Item>)
    requires Continues(j, parent) && HasRoot(parent, roots)
    ensures HasRoot(j, roots)
  {
    var i :| i in roots && i.fragments != [] && i.fragments[0] == parent.fragments[0];
    assert j.fragments[..|parent.fragments|][0] == parent.fragments[0];
  }

  lemma OnlyAt(items: seq<Item>, i: nat)
    requires Distinct(items) && i < |items|
    ensures forall j :: 0 <= j < |items| && j != i ==> items[j].fragments != items[i].fragments
  {
  }

  // ---------------------------------------------------------------------------------------------
  // Complete runs

  ghost predicate IsComplete(c: Search, f: Fifo<Seen, Item>, n: nat) {
    Steps(RulesOf(c), f, n).pending == []
  }

  /** In a complete run, the `m`th item found is processed by step `m`. */
  lemma ItemProcessed(c: Search, f: Fifo<Seen, Item>, n: nat, m: nat)
    requires IsComplete(c, f, n) && m < |All(c, f, n)|
    ensures m < n && Steps(RulesOf(c), f, m).pending != [] && Steps(RulesOf(c), f, m).pending[0] == All(c, f, n)[m]
    ensures Steps(RulesOf(c), f, m).initial == if m < f.initial then f.initial - m else 0
  {
    hide RulesOf, Worklists.Step, Added;
    var rules := RulesOf(c);
    NothingLost(rules, f, n);
    assert Processed(rules, f, n) + [] == Processed(rules, f, n);
    ProcessedAt(rules, f, n, m);
    ProcessedCount(rules, f, m);
    InitialNeverAsked(rules, f, m);
  }

  lemma {:induction false} AddedDiscovered(c: Search, f: Fifo<Seen, Item>, n: nat, m: nat, j: Item)
    requires m < n && j in Added(RulesOf(c), Steps(RulesOf(c), f, m))
    ensures j in All(c, f, n)
  {
    hide RulesOf, Worklists.Step, Added, Steps;
    AllGrows(c, f, n - 1);
    if m < n - 1 {
      AddedDiscovered(c, f, n - 1, m, j);
    }
  }

  /** Only the paths that a search starts with are those of single nodes. */
  lemma SingleIsInitial(c: Search, f: Fifo<Seen, Item>, n: nat, m: nat)
    requires NodesOnly(f.pending)
    requires m < |All(c, f, n)| && |All(c, f, n)[m].fragments| == 1
    ensures m < |f.pending|
  {
    hide RulesOf, Worklists.Step, Added, Discovered, Processed;
    RunDescended(c, f, n);
    AllHaveFragments(c, f, n);
    if m >= |f.pending| {
      var j := All(c, f, n)[m];
      assert j in Discovered(RulesOf(c), f, n);
      var p :| p in Processed(RulesOf(c), f, n) && Continues(j, p);
      ProcessedFound(c, f, n, p);
    }
  }

  lemma ProcessedFound(c: Search, f: Fifo<Seen, Item>, n: nat, p: Item)
    requires p in Processed(RulesOf(c), f, n)
    ensures p in All(c, f, n)
  {
    hide RulesOf;
    NothingLost(RulesOf(c), f, n);
  }

  // ---------------------------------------------------------------------------------------------
  // What the checks cut off

  /** Some item found is stitched from these fragments. */
  ghost predicate Found(c: Search, f: Fifo<Seen, Item>, n: nat, fragments: seq<Fragment>) {
    exists i :: 0 <= i < |All(c, f, n)| && All(c, f, n)[i].fragments == fragments
  }

  /** The cycle check has stopped an item stitched from these fragments. */
  ghost predicate CycleCut(c: Search, f: Fifo<Seen, Item>, n: nat, fragments: seq<Fragment>) {
    exists i :: 0 <= i < |All(c, f, n)| && All(c, f, n)[i].fragments == fragments && Discontinued(c, All(c, f, n)[i])
  }

  /** The extension could be appended, but was not kept: the similarity check has turned it away. */
  ghost predicate TurnedAway(c: Search, seen: Seen, item: Item, fragments: seq<Fragment>) {
    && !Discontinued(c, item)
    && (exists j :: j in Extensions(c, item, c.forward(item.path)) && j.fragments == fragments)
    && (forall j :: j in ExtendItem(c, seen, item).items ==> j.fragments != fragments)
  }

  ghost predicate SimilarCut(c: Search, f: Fifo<Seen, Item>, n: nat, fragments: seq<Fragment>) {
    exists m :: 0 <= m < n && Steps(RulesOf(c), f, m).pending != [] &&
      TurnedAway(c, Steps(RulesOf(c), f, m).state, Steps(RulesOf(c), f, m).pending[0], fragments)
  }

  /** One of the checks has cut off the item, or one that it continues. */
  ghost predicate CutOff(c: Search, f: Fifo<Seen, Item>, n: nat, fragments: seq<Fragment>) {
    || (exists i :: 0 < i < |fragments| && CycleCut(c, f, n, fragments[..i]))
    || (exists i :: 1 < i <= |fragments| && SimilarCut(c, f, n, fragments[..i]))
  }

  lemma CutOffLonger(c: Search, f: Fifo<Seen, Item>, n: nat, fragments: seq<Fragment>, next: Fragment)
    requires CutOff(c, f, n, fragments)
    ensures CutOff(c, f, n, fragments + [next])
  {
    hide CycleCut, SimilarCut;
    var longer := fragments + [next];
    if i :| 0 < i < |fragments| && CycleCut(c, f, n, fragments[..i]) {
      assert longer[..i] == fragments[..i];
    } else {
      var i :| 1 < i <= |fragments| && SimilarCut(c, f, n, fragments[..i]);
      assert longer[..i] == fragments[..i];
    }
  }

  lemma CutOffByCycle(c: Search, f: Fifo<Seen, Item>, n: nat, fragments: seq<Fragment>, next: Fragment)
    requires fragments != [] && CycleCut(c, f, n, fragments)
    ensures CutOff(c, f, n, fragments + [next])
  {
    hide CycleCut, SimilarCut;
    assert (fragments + [next])[..|fragments|] == fragments;
  }

  lemma CutOffBySimilar(c: Search, f: Fifo<Seen, Item>, n: nat, fragments: seq<Fragment>)
    requires |fragments| > 1 && SimilarCut(c, f, n, fragments)
    ensures CutOff(c, f, n, fragments)
  {
    hide CycleCut, SimilarCut;
    assert fragments[..|fragments|] == fragments;
  }

  lemma {:induction false} ExtensionExists(c: Search, item: Item, candidates: seq<Fragment>, f: Fragment)
    requires f in candidates && AppendFragment(c.g, item.path, f, c.depth).Ok?
    ensures exists j :: j in Extensions(c, item, candidates) && j.fragments == item.fragments + [f]
  {
    hide AppendFragment;
    var k := |candidates| - 1;
    if candidates[k] == f {
      var j := Item(AppendFragment(c.g, item.path, f, c.depth).value, item.fragments + [f], item.hasSplit);
      assert Extensions(c, item, candidates)[|Extensions(c, item, candidates)| - 1] == j;
    } else {
      ExtensionExists(c, item, candidates[..k], f);
      var j :| j in Extensions(c, item, candidates[..k]) && j.fragments == item.fragments + [f];
    }
  }

  /** An item that has been found and may be extended leads on to the next one, unless a check cuts it off. */
  lemma LeadsOn(c: Search, f: Fifo<Seen, Item>, n: nat, m: nat, fragments: seq<Fragment>)
    requires IsComplete(c, f, n) && m < |All(c, f, n)|
    requires m < f.initial || c.extendWhile(All(c, f, n)[m].path)
    requires exists j ::
               j in Extensions(c, All(c, f, n)[m], c.forward(All(c, f, n)[m].path)) && j.fragments == fragments
    ensures Found(c, f, n, fragments) || Discontinued(c, All(c, f, n)[m]) || SimilarCut(c, f, n, fragments)
  {
    hide ExtendItem, Extensions, Discontinued, Steps, All, Found, SimilarCut;
    var before := Steps(RulesOf(c), f, m);
    var item := All(c, f, n)[m];
    ItemProcessed(c, f, n, m);
    assert Added(RulesOf(c), before) == ExtendItem(c, before.state, item).items;
    if j :| j in ExtendItem(c, before.state, item).items && j.fragments == fragments {
      AddedDiscovered(c, f, n, m, j);
      FoundItem(c, f, n, j);
    } else if !Discontinued(c, item) {
      assert TurnedAway(c, before.state, item, fragments);
      SimilarCutAt(c, f, n, m, fragments);
    }
  }

  lemma FoundItem(c: Search, f: Fifo<Seen, Item>, n: nat, j: Item)
    requires j in All(c, f, n)
    ensures Found(c, f, n, j.fragments)
  {
  }

  lemma SimilarCutAt(c: Search, f: Fifo<Seen, Item>, n: nat, m: nat, fragments: seq<Fragment>)
    requires m < n && Steps(RulesOf(c), f, m).pending != []
    requires TurnedAway(c, Steps(RulesOf(c), f, m).state, Steps(RulesOf(c), f, m).pending[0], fragments)
    ensures SimilarCut(c, f, n, fragments)
  {
  }

  // ---------------------------------------------------------------------------------------------
  // What can be stitched is found

  ghost predicate AllStitched(c: Search, items: seq<Item>) {
    forall i :: 0 <= i < |items| ==> Stitched(c, items[i])
  }

  lemma StepStitched(c: Search, f: Fifo<Seen, Item>)
    requires AllStitched(c, f.pending)
    ensures AllStitched(c, Worklists.Step(RulesOf(c), f).pending) && AllStitched(c, Added(RulesOf(c), f))
  {
    hide Stitched, ExtendItem, AppendFragment;
    var added := Added(RulesOf(c), f);
    forall i | 0 <= i < |added|
      ensures Stitched(c, added[i])
    {
      var next := ExtendedBy(c, f.state, f.pending[0], added[i]);
      ExtensionStitched(c, f.pending[0], added[i], next);
    }
  }

  lemma {:induction false} RunStitched(c: Search, f: Fifo<Seen, Item>, n: nat)
    requires AllStitched(c, f.pending)
    ensures AllStitched(c, Steps(RulesOf(c), f, n).pending) && AllStitched(c, All(c, f, n))
  {
    hide Stitched, RulesOf, Worklists.Step, Added;
    if n == 0 {
      assert All(c, f, 0) == f.pending;
    } else {
      RunStitched(c, f, n - 1);
      StepStitched(c, Steps(RulesOf(c), f, n - 1));
      AllGrows(c, f, n);
      AllGrows(c, f, n - 1);
    }
  }

  /** A run that starts with paths not extended yet, and comes to its end. */
  ghost predicate WholeRun(c: Search, f: Fifo<Seen, Item>, n: nat) {
    f.initial == |f.pending| && NodesOnly(f.pending) && AllStitched(c, f.pending) && IsComplete(c, f, n)
  }

  lemma StartWhole(c: Search, paths: seq<PartialPath>, detectSimilar: bool)
    ensures var f := Start(paths, detectSimilar);
            f.initial == |f.pending| && NodesOnly(f.pending) && AllStitched(c, f.pending)
  {
    var items := InitialItems(paths);
    forall i | 0 <= i < |items|
      ensures Stitched(c, items[i])
    {
      assert items[i].fragments[1..] == [];
    }
  }

  lemma StartDistinct(paths: seq<PartialPath>, detectSimilar: bool)
    requires forall i, j :: 0 <= i < j < |paths| ==> paths[i] != paths[j]
    ensures Distinct(Start(paths, detectSimilar).pending)
  {
    var items := InitialItems(paths);
    forall i, j | 0 <= i < j < |items|
      ensures items[i].fragments != items[j].fragments
    {
      assert items[i].fragments[0] == PathFragment(paths[i]) && items[j].fragments[0] == PathFragment(paths[j]);
    }
  }

  /** Whatever candidates can be stitched to an initial path, one after the other, is found or cut off. */
  lemma {:induction false} StitchFound(c: Search, f: Fifo<Seen, Item>, n: nat, p: PartialPath, fragments: seq<Fragment>)
    requires WholeRun(c, f, n) && Found(c, f, n, [PathFragment(p)])
    requires CandidateChain(c, p, fragments) && Stitch(c.g, p, fragments, c.depth).Ok?
    ensures Found(c, f, n, [PathFragment(p)] + fragments) || CutOff(c, f, n, [PathFragment(p)] + fragments)
  {
    hide WholeRun, Found, CutOff, AppendFragment;
    var first := [PathFragment(p)];
    if fragments == [] {
      assert first + fragments == first;
    } else {
      var front, next := fragments[..|fragments| - 1], fragments[|fragments| - 1];
      assert first + fragments == (first + front) + [next];
      StitchFound(c, f, n, p, front);
      if CutOff(c, f, n, first + front) {
        CutOffLonger(c, f, n, first + front, next);
      } else {
        StitchStep(c, f, n, p, front, next);
      }
    }
  }

  lemma StitchStep(c: Search, f: Fifo<Seen, Item>, n: nat, p: PartialPath, front: seq<Fragment>, next: Fragment)
    requires WholeRun(c, f, n) && Found(c, f, n, [PathFragment(p)] + front)
    requires var q := Stitch(c.g, p, front, c.depth);
             && q.Ok? && next in c.forward(q.value) && (front != [] ==> c.extendWhile(q.value))
             && AppendFragment(c.g, q.value, next, c.depth).Ok?
    ensures Found(c, f, n, ([PathFragment(p)] + front) + [next]) ||
            CutOff(c, f, n, ([PathFragment(p)] + front) + [next])
  {
    hide AppendFragment, Extensions, SimilarCut, Discontinued, IsComplete, CutOff, All;
    var fragments := [PathFragment(p)] + front;
    var m :| 0 <= m < |All(c, f, n)| && All(c, f, n)[m].fragments == fragments;
    var item := All(c, f, n)[m];
    RunStitched(c, f, n);
    assert fragments[1..] == front;
    if front == [] {
      SingleIsInitial(c, f, n, m);
    }
    ExtensionExists(c, item, c.forward(item.path), next);
    LeadsOn(c, f, n, m, fragments + [next]);
    if Discontinued(c, item) {
      assert CycleCut(c, f, n, fragments);
      CutOffByCycle(c, f, n, fragments, next);
    } else if SimilarCut(c, f, n, fragments + [next]) {
      CutOffBySimilar(c, f, n, fragments + [next]);
    }
  }

  // ---------------------------------------------------------------------------------------------
  // Without similar path detection

  lemma {:induction false} KeepsAll(c: Search, items: seq<Item>)
    ensures KeepItems(c, None, items) == Kept(None, items)
  {
    if items != [] {
      KeepsAll(c, items[..|items| - 1]);
      assert items == items[..|items| - 1] + [items[|items| - 1]];
    }
  }

  lemma SplitHas(items: seq<Item>, hasSplit: bool, j: Item) returns (k: Item)
    requires j in items
    ensures k in WithSplit(items, hasSplit) && k.fragments == j.fragments
  {
    var i :| 0 <= i < |items| && items[i] == j;
    k := WithSplit(items, hasSplit)[i];
  }

  lemma NoneTurnedAway(c: Search, item: Item, fragments: seq<Fragment>)
    ensures !TurnedAway(c, None, item, fragments)
  {
    hide Extensions, Discontinued, KeepItems, WithSplit;
    var extensions := Extensions(c, item, c.forward(item.path));
    var hasSplit := item.hasSplit || |extensions| > 1;
    KeepsAll(c, WithSplit(extensions, hasSplit));
    if j :| j in extensions && j.fragments == fragments {
      var k := SplitHas(extensions, hasSplit, j);
    }
  }

  lemma {:induction false} StaysWithoutDetector(c: Search, f: Fifo<Seen, Item>, n: nat)
    requires f.state == None
    ensures Steps(RulesOf(c), f, n).state == None
  {
    hide RulesOf, Worklists.Step;
    if n > 0 {
      StaysWithoutDetector(c, f, n - 1);
      StepWithoutDetector(c, Steps(RulesOf(c), f, n - 1));
    }
  }

  lemma StepWithoutDetector(c: Search, f: Fifo<Seen, Item>)
    requires f.state == None
    ensures Worklists.Step(RulesOf(c), f).state == None
  {
    hide KeepItems, Extensions, Discontinued;
  }

  /** Then only the cycle check cuts anything off. */
  lemma OnlyCyclesCut(c: Search, f: Fifo<Seen, Item>, n: nat, fragments: seq<Fragment>)
    requires f.state == None
    ensures CutOff(c, f, n, fragments) <==> exists i :: 0 < i < |fragments| && CycleCut(c, f, n, fragments[..i])
  {
    hide CycleCut, TurnedAway, RulesOf;
    if i :| 1 < i <= |fragments| && SimilarCut(c, f, n, fragments[..i]) {
      var m :| 0 <= m < n && Steps(RulesOf(c), f, m).pending != [] &&
        TurnedAway(c, Steps(RulesOf(c), f, m).state, Steps(RulesOf(c), f, m).pending[0], fragments[..i]);
      StaysWithoutDetector(c, f, m);
      NoneTurnedAway(c, Steps(RulesOf(c), f, m).pending[0], fragments[..i]);
    }
  }

  // ---------------------------------------------------------------------------------------------
  // Runs that need not end

  /** Step `k` of the run takes up an item that is stitched from these fragments. */
  ghost predicate TakenUp(c: Search, f: Fifo<Seen, Item>, k: nat, fragments: seq<Fragment>, p: PartialPath) {
    var pending := Steps(RulesOf(c), f, k).pending;
    pending != [] && pending[0].fragments == fragments && pending[0].path == p
  }

  ghost predicate Comes(c: Search, f: Fifo<Seen, Item>, fragments: seq<Fragment>, p: PartialPath) {
    exists k: nat :: TakenUp(c, f, k, fragments, p)
  }

  /** The cycle check lets the path go on. */
  ghost predicate GoesOn(c: Search, fragments: seq<Fragment>, p: PartialPath) {
    forall hasSplit :: !Discontinued(c, Item(p, fragments, hasSplit))
  }

  lemma ExtensionWith(c: Search, item: Item, candidates: seq<Fragment>, f: Fragment, p: PartialPath) returns (i: nat)
    requires f in candidates && AppendFragment(c.g, item.path, f, c.depth) == Ok(p)
    ensures i < |Extensions(c, item, candidates)|
    ensures Extensions(c, item, candidates)[i].fragments == item.fragments + [f]
    ensures Extensions(c, item, candidates)[i].path == p
  {
    hide AppendFragment;
    ExtensionExists(c, item, candidates, f);
    var j :| j in Extensions(c, item, candidates) && j.fragments == item.fragments + [f];
    i :| 0 <= i < |Extensions(c, item, candidates)| && Extensions(c, item, candidates)[i] == j;
    var g := ExtensionOf(c, item, candidates, j);
    assert (item.fragments + [g])[|item.fragments|] == g && (item.fragments + [f])[|item.fragments|] == f;
  }

  /** Without similar path detection, a step puts the extension of the item that it takes up in the worklist. */
  lemma ExtensionPending(c: Search, at: Fifo<Seen, Item>, next: Fragment, q: PartialPath) returns (m: nat)
    requires at.state == None && at.pending != [] && c.extendWhile(at.pending[0].path)
    requires !Discontinued(c, at.pending[0]) && next in c.forward(at.pending[0].path)
    requires AppendFragment(c.g, at.pending[0].path, next, c.depth) == Ok(q)
    ensures var pending := Worklists.Step(RulesOf(c), at).pending;
            && m < |pending| && pending[m].fragments == at.pending[0].fragments + [next] && pending[m].path == q
  {
    hide AppendFragment, Discontinued, Extensions, KeepItems;
    var item := at.pending[0];
    var extensions := Extensions(c, item, c.forward(item.path));
    var hasSplit := item.hasSplit || |extensions| > 1;
    var i := ExtensionWith(c, item, c.forward(item.path), next, q);
    KeepsAll(c, WithSplit(extensions, hasSplit));
    assert Added(RulesOf(c), at) == WithSplit(extensions, hasSplit);
    m := |at.pending| - 1 + i;
    assert Worklists.Step(RulesOf(c), at).pending[m] == WithSplit(extensions, hasSplit)[i];
  }

  /** Without similar path detection, an item that is taken up and goes on leads to the next one. */
  lemma NextComes(c: Search, f: Fifo<Seen, Item>, k: nat, fragments: seq<Fragment>, p: PartialPath, next: Fragment,
                  q: PartialPath)
    requires f.state == None && TakenUp(c, f, k, fragments, p) && GoesOn(c, fragments, p) && c.extendWhile(p)
    requires next in c.forward(p) && AppendFragment(c.g, p, next, c.depth) == Ok(q)
    ensures Comes(c, f, fragments + [next], q)
  {
    hide AppendFragment, Discontinued, RulesOf, Worklists.Step;
    var rules, at := RulesOf(c), Steps(RulesOf(c), f, k);
    var item := at.pending[0];
    StaysWithoutDetector(c, f, k);
    assert item == Item(p, fragments, item.hasSplit);
    var m := ExtensionPending(c, at, next, q);
    var after := Steps(rules, f, k + 1);
    FrontAfter(rules, after, m);
    StepsCompose(rules, f, k + 1, m);
    assert TakenUp(c, f, k + 1 + m, fragments + [next], q);
  }

  /**
   Whether or not the run ever ends: without similar path detection, whatever candidates can be stitched to an
   initial path is taken up at some step, as long as the cycle check lets the paths before it go on.
   */
  lemma {:induction false} StitchComes(c: Search, f: Fifo<Seen, Item>, p: PartialPath, fragments: seq<Fragment>)
    requires f.state == None && Comes(c, f, [PathFragment(p)], p)
    requires CandidateChain(c, p, fragments) && Stitch(c.g, p, fragments, c.depth).Ok?
    requires forall k :: 0 <= k < |fragments| && Stitch(c.g, p, fragments[..k], c.depth).Ok? ==>
               var q := Stitch(c.g, p, fragments[..k], c.depth).value;
               GoesOn(c, [PathFragment(p)] + fragments[..k], q) && c.extendWhile(q)
    ensures Comes(c, f, [PathFragment(p)] + fragments, Stitch(c.g, p, fragments, c.depth).value)
  {
    hide AppendFragment, TakenUp, GoesOn;
    if fragments == [] {
      assert [PathFragment(p)] + fragments == [PathFragment(p)];
    } else {
      var n := |fragments| - 1;
      var front := fragments[..n];
      forall k | 0 <= k < |front|
        ensures front[..k] == fragments[..k]
      {
      }
      StitchComes(c, f, p, front);
      var q := Stitch(c.g, p, front, c.depth).value;
      var k: nat :| TakenUp(c, f, k, [PathFragment(p)] + front, q);
      NextComes(c, f, k, [PathFragment(p)] + front, q, fragments[n], Stitch(c.g, p, fragments, c.depth).value);
      assert [PathFragment(p)] + fragments == ([PathFragment(p)] + front) + [fragments[n]];
    }
  }
}
