/**
 The similar path detector: of all paths with the same ends and conditions that are offered to it, it
 keeps one that none of the others shadows, and it counts the paths it turns away.
 */
module SimilarPaths {
  import opened Wrappers
  import opened Graphs
  import opened Patterns
  import opened PartialPaths
  import opened Shadowing

  datatype PathKey = PathKey(
    startNode: NodeHandle,
    endNode: NodeHandle,
    symbolPreLength: nat,
    scopePreLength: nat,
    symbolPostLength: nat,
    scopePostLength: nat)

  function Key(p: PartialPath): PathKey {
    PathKey(p.startNode, p.endNode, |p.symbolPre.symbols|, |p.scopePre.scopes|, |p.symbolPost.symbols|,
            |p.scopePost.scopes|)
  }

  /** `PartialPath::equals`: the same but for the edges. */
  predicate Alike(p: PartialPath, q: PartialPath) {
    p.(edges := q.edges) == q
  }

  datatype Ordering = Less | Equal | Greater

  /** How the stitcher compares paths: only alike ones, and those by shadowing. */
  method Compare(left: PartialPath, right: PartialPath) returns (r: Option<Ordering>)
    ensures r.None? <==> !Alike(left, right)
    ensures r == Some(Less) <==> Alike(left, right) && Shadows(left.edges, right.edges)
    ensures forall links, w, u ::
              Alike(left, right) && Records(links, w, left.edges) && Records(links, u, right.edges) ==>
              r == Some(if Preferred(links, w, u) then Less else if Preferred(links, u, w) then Greater else Equal)
  {
    forall links, w, u | Records(links, w, left.edges) && Records(links, u, right.edges)
      ensures Shadows(left.edges, right.edges) <==> Preferred(links, w, u)
      ensures Shadows(right.edges, left.edges) <==> Preferred(links, u, w)
    {
      ShadowsByPrecedence(links, w, left.edges, u, right.edges);
      ShadowsByPrecedence(links, u, right.edges, w, left.edges);
    }
    if !Alike(left, right) {
      return None;
    }
    var less := EdgeListShadows(left.edges, right.edges);
    if less {
      return Some(Less);
    }
    var greater := EdgeListShadows(right.edges, left.edges);
    return if greater then Some(Greater) else Some(Equal);
  }

  // ---------------------------------------------------------------------------------------------
  // What one offer does

  /** The paths kept, each with the number of paths turned away in its favour. */
  datatype Bucket = Bucket(paths: seq<PartialPath>, counts: seq<nat>) {
    ghost predicate Valid() {
      && |paths| == |counts|
      && forall i, j :: 0 <= i < j < |paths| ==> !Alike(paths[i], paths[j])
    }
  }

  const EMPTY_BUCKET := Bucket([], [])

  /** The position of the path in the bucket that is like `p`. */
  function Position(paths: seq<PartialPath>, p: PartialPath): (r: Option<nat>)
    ensures r.Some? ==> r.value < |paths| && Alike(p, paths[r.value])
    ensures r.None? ==> forall i :: 0 <= i < |paths| ==> !Alike(p, paths[i])
  {
    if paths == [] then None
    else if Alike(p, paths[|paths| - 1]) then Some(|paths| - 1)
    else Position(paths[..|paths| - 1], p)
  }

  function Without<T>(s: seq<T>, i: nat): seq<T>
    requires i < |s|
  {
    s[..i] + s[i + 1..]
  }

  /** `similar` is the answer: whether the path is turned away. */
  datatype Offer = Offer(bucket: Bucket, similar: bool)

  ghost function OfferTo(b: Bucket, p: PartialPath): (r: Offer)
    requires b.Valid()
  {
    match Position(b.paths, p)
    case None => Offer(Bucket(b.paths + [p], b.counts + [0]), false)
    case Some(i) =>
      if Shadows(p.edges, b.paths[i].edges)
      then Offer(Bucket(Without(b.paths, i) + [p], Without(b.counts, i) + [b.counts[i]]), false)
      else Offer(b.(counts := b.counts[i := b.counts[i] + 1]), true)
  }

  lemma OfferKeepsValid(b: Bucket, p: PartialPath)
    requires b.Valid()
    ensures OfferTo(b, p).bucket.Valid()
  {
    match Position(b.paths, p)
    case None =>
    case Some(i) =>
      forall k | 0 <= k < |b.paths| && k != i
        ensures !Alike(p, b.paths[k]) && !Alike(b.paths[k], p)
      {
        assert if k < i then !Alike(b.paths[k], b.paths[i]) else !Alike(b.paths[i], b.paths[k]);
      }
  }

  // ---------------------------------------------------------------------------------------------
  // The detector

  datatype Detector = Detector(buckets: map<PathKey, Bucket>) {
    function At(k: PathKey): Bucket {
      if k in buckets then buckets[k] else EMPTY_BUCKET
    }

    ghost predicate Valid() {
      forall k :: k in buckets ==> buckets[k].Valid()
    }
  }

  class SimilarPathDetector {
    var paths: map<PathKey, seq<PartialPath>>
    var counts: Option<map<PathKey, seq<nat>>>

    /** The counts are those of `d` if they are collected. */
    ghost predicate Holds(d: Detector)
      reads this
    {
      && paths.Keys == d.buckets.Keys
      && (forall k :: k in paths ==> paths[k] == d.buckets[k].paths)
      && (counts.Some? ==>
            && counts.value.Keys == d.buckets.Keys
            && forall k :: k in counts.value ==> counts.value[k] == d.buckets[k].counts)
    }

    constructor (collectStats: bool)
      ensures Holds(Detector(map[]))
      ensures counts.Some? <==> collectStats
    {
      paths := map[];
      counts := if collectStats then Some(map[]) else None;
    }

    /** True if the path is turned away. */
    method AddPath(path: PartialPath, ghost d: Detector) returns (similar: bool)
      requires Holds(d) && d.Valid()
      modifies this
      ensures var k := Key(path);
              var offer := OfferTo(d.At(k), path);
              similar == offer.similar && Holds(Detector(d.buckets[k := offer.bucket]))
      ensures counts.Some? <==> old(counts.Some?)
    {
      hide Key, OfferTo;
      var k := Key(path);
      var bucket := if k in paths then paths[k] else [];
      var bucketCounts := if counts.None? then None else if k in counts.value then Some(counts.value[k]) else Some([]);
      bucket, bucketCounts, similar := SweepBucket(bucket, bucketCounts, path, d.At(k));
      paths := paths[k := bucket];
      if counts.Some? {
        counts := Some(counts.value[k := bucketCounts.value]);
      }
    }
  }

  /** Runs over a bucket, dropping a path that the new one shadows; stops at one that turns the new one away. */
  method SweepBucket(paths: seq<PartialPath>, counts: Option<seq<nat>>, path: PartialPath, ghost before: Bucket)
    returns (bucket: seq<PartialPath>, bucketCounts: Option<seq<nat>>, similar: bool)
    requires before.Valid() && paths == before.paths && (counts.Some? ==> counts.value == before.counts)
    ensures var offer := OfferTo(before, path);
            && similar == offer.similar && bucket == offer.bucket.paths
            && bucketCounts == if counts.Some? then Some(offer.bucket.counts) else None
  {
    hide Alike, Shadows, OfferTo, Swept;
    SweptStart(before, path);
    bucket, bucketCounts := paths, counts;
    var idx, count := 0, 0;
    ghost var dropped: Option<nat> := None;
    while idx < |bucket|
      invariant 0 <= idx <= |bucket|
      invariant Swept(before, path, idx, dropped, bucket)
      invariant bucketCounts.Some? <==> counts.Some?
      invariant dropped.Some? ==> dropped.value < |before.counts|
      invariant counts.Some? ==>
          bucketCounts.value == (if dropped.Some? then Without(before.counts, dropped.value) else before.counts)
      invariant counts.Some? ==> count == if dropped.Some? then before.counts[dropped.value] else 0
      decreases |bucket| - idx
    {
      var order := Compare(path, bucket[idx]);
      if order == Some(Less) {
        SweptDrop(before, path, idx, dropped, bucket);
        dropped := Some(idx);
        bucket := Without(bucket, idx);
        if counts.Some? {
          count := count + bucketCounts.value[idx];
          bucketCounts := Some(Without(bucketCounts.value, idx));
        }
      } else if order.Some? {
        SweptFound(before, path, idx, dropped, bucket);
        if counts.Some? {
          bucketCounts := Some(bucketCounts.value[idx := bucketCounts.value[idx] + 1]);
        }
        return bucket, bucketCounts, true;
      } else {
        SweptSkip(before, path, idx, dropped, bucket);
        idx := idx + 1;
      }
    }
    SweptAll(before, path, dropped, bucket);
    bucket := bucket + [path];
    if counts.Some? {
      bucketCounts := Some(bucketCounts.value + [count]);
    }
    similar := false;
  }

  /** The bucket as it is after the first `idx` paths, from which at most one has been dropped. */
  ghost predicate Swept(b: Bucket, p: PartialPath, idx: nat, dropped: Option<nat>, bucket: seq<PartialPath>) {
    && b.Valid()
    && (dropped.Some? ==> dropped.value < |b.paths| && Alike(p, b.paths[dropped.value]) &&
                          Shadows(p.edges, b.paths[dropped.value].edges))
    && bucket == (if dropped.Some? then Without(b.paths, dropped.value) else b.paths)
    && idx <= |bucket|
    && forall i :: 0 <= i < idx ==> !Alike(p, bucket[i])
  }

  lemma OnlyOneAlike(b: Bucket, p: PartialPath, i: nat, j: nat)
    requires b.Valid() && i < |b.paths| && j < |b.paths|
    requires Alike(p, b.paths[i]) && Alike(p, b.paths[j])
    ensures i == j
  {
    assert Alike(b.paths[i], b.paths[j]) && Alike(b.paths[j], b.paths[i]);
  }

  lemma OthersUnlike(b: Bucket, p: PartialPath, i: nat, j: nat)
    requires b.Valid() && i < |b.paths| && j < |b.paths| && i != j
    requires Alike(p, b.paths[i])
    ensures !Alike(p, b.paths[j])
  {
    assert if i < j then !Alike(b.paths[i], b.paths[j]) else !Alike(b.paths[j], b.paths[i]);
  }

  lemma NoneLeft(b: Bucket, p: PartialPath, idx: nat, dropped: Option<nat>, bucket: seq<PartialPath>)
    requires Swept(b, p, idx, dropped, bucket) && dropped.Some?
    ensures forall i :: 0 <= i < |bucket| ==> !Alike(p, bucket[i])
  {
    forall i | 0 <= i < |bucket|
      ensures !Alike(p, bucket[i])
    {
      var k := if i < dropped.value then i else i + 1;
      assert bucket[i] == b.paths[k];
      OthersUnlike(b, p, dropped.value, k);
    }
  }

  lemma SweptStart(b: Bucket, p: PartialPath)
    requires b.Valid()
    ensures Swept(b, p, 0, None, b.paths)
  {
  }

  lemma SweptSkip(b: Bucket, p: PartialPath, idx: nat, dropped: Option<nat>, bucket: seq<PartialPath>)
    requires Swept(b, p, idx, dropped, bucket) && idx < |bucket| && !Alike(p, bucket[idx])
    ensures Swept(b, p, idx + 1, dropped, bucket)
  {
  }

  lemma SweptDrop(b: Bucket, p: PartialPath, idx: nat, dropped: Option<nat>, bucket: seq<PartialPath>)
    requires Swept(b, p, idx, dropped, bucket) && idx < |bucket|
    requires Alike(p, bucket[idx]) && Shadows(p.edges, bucket[idx].edges)
    ensures dropped.None? && idx < |b.counts| && Swept(b, p, idx, Some(idx), Without(bucket, idx))
  {
    if dropped.Some? {
      NoneLeft(b, p, idx, dropped, bucket);
    } else {
      forall i | 0 <= i < |bucket| && i != idx
        ensures !Alike(p, bucket[i])
      {
        OthersUnlike(b, p, idx, i);
      }
    }
  }

  lemma SweptFound(b: Bucket, p: PartialPath, idx: nat, dropped: Option<nat>, bucket: seq<PartialPath>)
    requires Swept(b, p, idx, dropped, bucket) && idx < |bucket|
    requires Alike(p, bucket[idx]) && !Shadows(p.edges, bucket[idx].edges)
    ensures dropped.None? && bucket == b.paths && idx < |b.counts|
    ensures OfferTo(b, p) == Offer(b.(counts := b.counts[idx := b.counts[idx] + 1]), true)
  {
    if dropped.Some? {
      NoneLeft(b, p, idx, dropped, bucket);
    } else {
      assert Position(b.paths, p).Some?;
      OnlyOneAlike(b, p, idx, Position(b.paths, p).value);
    }
  }

  lemma SweptAll(b: Bucket, p: PartialPath, dropped: Option<nat>, bucket: seq<PartialPath>)
    requires Swept(b, p, |bucket|, dropped, bucket)
    ensures dropped.Some? ==> dropped.value < |b.counts|
    ensures OfferTo(b, p) ==
            Offer(Bucket(bucket + [p],
                         if dropped.Some? then Without(b.counts, dropped.value) + [b.counts[dropped.value]]
                         else b.counts + [0]), false)
  {
    if dropped.Some? {
      OnlyOneAlike(b, p, dropped.value, Position(b.paths, p).value);
    }
  }

  // ---------------------------------------------------------------------------------------------
  // Any sequence of offers

  datatype History = History(detector: Detector, rejected: seq<PartialPath>)

  ghost function OfferAll(offers: seq<PartialPath>): (h: History)
    ensures h.detector.Valid()
  {
    if offers == [] then History(Detector(map[]), [])
    else
      var h := OfferAll(offers[..|offers| - 1]);
      var p := offers[|offers| - 1];
      var offer := OfferTo(h.detector.At(Key(p)), p);
      OfferKeepsValid(h.detector.At(Key(p)), p);
      History(Detector(h.detector.buckets[Key(p) := offer.bucket]),
              if offer.similar then h.rejected + [p] else h.rejected)
  }

  /** How many of the paths are like `p`. */
  ghost function CountAlike(paths: seq<PartialPath>, p: PartialPath): nat {
    if paths == [] then 0
    else CountAlike(paths[..|paths| - 1], p) + if Alike(paths[|paths| - 1], p) then 1 else 0
  }

  ghost predicate HoldsOffers(paths: seq<PartialPath>, k: PathKey, offers: seq<PartialPath>) {
    forall q :: q in paths ==> q in offers && Key(q) == k
  }

  ghost predicate CoversOffers(paths: seq<PartialPath>, k: PathKey, offers: seq<PartialPath>) {
    forall p :: p in offers && Key(p) == k ==> exists q :: q in paths && Alike(p, q)
  }

  ghost predicate Unbeaten(paths: seq<PartialPath>, offers: seq<PartialPath>) {
    forall p, q :: p in offers && q in paths && Alike(p, q) ==> !Shadows(p.edges, q.edges)
  }

  ghost predicate CountsRejected(b: Bucket, rejected: seq<PartialPath>) {
    |b.paths| == |b.counts| && forall i :: 0 <= i < |b.paths| ==> b.counts[i] == CountAlike(rejected, b.paths[i])
  }

  /**
   A bucket's part in the history: it holds offers of its key, one like every such offer and never two
   alike; none of the offers it represents shadows a path it holds; and it counts those turned away.
   */
  ghost predicate Represents(b: Bucket, k: PathKey, offers: seq<PartialPath>, rejected: seq<PartialPath>) {
    && b.Valid()
    && HoldsOffers(b.paths, k, offers)
    && CoversOffers(b.paths, k, offers)
    && Unbeaten(b.paths, offers)
    && CountsRejected(b, rejected)
  }

  ghost predicate RealOffers(links: Precedences, offers: seq<PartialPath>) {
    forall p :: p in offers ==> Real(links, p.edges)
  }

  /** Alike paths share a key, and so a bucket. */
  lemma AlikeShareKey(p: PartialPath, q: PartialPath)
    requires Alike(p, q)
    ensures Key(p) == Key(q)
  {
  }

  lemma {:induction false} CountAlikeSame(paths: seq<PartialPath>, p: PartialPath, q: PartialPath)
    requires Alike(p, q)
    ensures CountAlike(paths, p) == CountAlike(paths, q)
  {
    if paths != [] {
      CountAlikeSame(paths[..|paths| - 1], p, q);
    }
  }

  lemma {:induction false} CountAlikeNone(paths: seq<PartialPath>, p: PartialPath)
    requires forall q :: q in paths ==> !Alike(q, p)
    ensures CountAlike(paths, p) == 0
  {
    if paths != [] {
      CountAlikeNone(paths[..|paths| - 1], p);
    }
  }

  lemma CountAlikeSnoc(paths: seq<PartialPath>, q: PartialPath, p: PartialPath)
    ensures CountAlike(paths + [q], p) == CountAlike(paths, p) + if Alike(q, p) then 1 else 0
  {
    assert (paths + [q])[..|paths|] == paths;
  }

  /** The new path joins `rest`: what is left of the bucket without a path like the new one. */
  lemma PlacedLast(paths: seq<PartialPath>, rest: seq<PartialPath>, p: PartialPath, k: PathKey,
                   offers: seq<PartialPath>)
    requires HoldsOffers(paths, k, offers) && CoversOffers(paths, k, offers) && Unbeaten(paths, offers) && Key(p) == k
    requires forall q :: q in rest ==> q in paths && !Alike(p, q)
    requires forall q :: q in paths ==> q in rest || Alike(q, p)
    requires forall q :: q in offers && Alike(q, p) ==> !Shadows(q.edges, p.edges)
    ensures HoldsOffers(rest + [p], k, offers + [p])
    ensures CoversOffers(rest + [p], k, offers + [p])
    ensures Unbeaten(rest + [p], offers + [p])
  {
    hide Key, Shadows, Alike, CoversOffers;
    ShadowsIrreflexive(p.edges);
    CoversPlaced(paths, rest, p, k, offers);
  }

  lemma CoversPlaced(paths: seq<PartialPath>, rest: seq<PartialPath>, p: PartialPath, k: PathKey,
                     offers: seq<PartialPath>)
    requires CoversOffers(paths, k, offers)
    requires forall q :: q in paths ==> q in rest || Alike(q, p)
    ensures CoversOffers(rest + [p], k, offers + [p])
  {
    hide Key, Alike;
    forall r | r in offers + [p] && Key(r) == k
      ensures exists q :: q in rest + [p] && Alike(r, q)
    {
      CoveredPlaced(paths, rest, p, k, offers, r);
    }
  }

  lemma CoveredPlaced(paths: seq<PartialPath>, rest: seq<PartialPath>, p: PartialPath, k: PathKey,
                      offers: seq<PartialPath>, r: PartialPath)
    requires CoversOffers(paths, k, offers) && Key(r) == k && r in offers + [p]
    requires forall q :: q in paths ==> q in rest || Alike(q, p)
    ensures exists q :: q in rest + [p] && Alike(r, q)
  {
    hide Key, Alike;
    assert p in rest + [p];
    if r in offers {
      var q :| q in paths && Alike(r, q);
      if q in rest {
        assert q in rest + [p];
      } else {
        AlikeTransitive(r, q, p);
      }
    } else {
      AlikeReflexive(p);
    }
  }

  lemma AlikeReflexive(p: PartialPath)
    ensures Alike(p, p)
  {
  }

  /** One more offer, like a path that the bucket holds and no better than it. */
  lemma PlacedNowhere(paths: seq<PartialPath>, held: PartialPath, p: PartialPath, k: PathKey, offers: seq<PartialPath>)
    requires HoldsOffers(paths, k, offers) && CoversOffers(paths, k, offers) && Unbeaten(paths, offers)
    requires held in paths && Alike(p, held) && !Shadows(p.edges, held.edges)
    requires forall q :: q in paths && Alike(p, q) ==> q == held
    ensures HoldsOffers(paths, k, offers + [p]) && CoversOffers(paths, k, offers + [p]) && Unbeaten(paths, offers + [p])
  {
    hide Key, Shadows, Alike;
  }

  lemma CountsPlacedLast(rest: Bucket, rejected: seq<PartialPath>, p: PartialPath, count: nat)
    requires CountsRejected(rest, rejected) && count == CountAlike(rejected, p)
    ensures CountsRejected(Bucket(rest.paths + [p], rest.counts + [count]), rejected)
  {
  }

  /** A new path in an otherwise unchanged bucket. */
  lemma RepresentsNew(b: Bucket, k: PathKey, offers: seq<PartialPath>, rejected: seq<PartialPath>, p: PartialPath)
    requires Represents(b, k, offers, rejected) && Key(p) == k && Position(b.paths, p).None?
    requires forall q :: q in rejected ==> q in offers
    ensures Represents(OfferTo(b, p).bucket, k, offers + [p], rejected)
  {
    hide Key, Alike, Shadows;
    OfferKeepsValid(b, p);
    forall q | q in offers
      ensures !Alike(q, p)
    {
      if Alike(q, p) {
        AlikeShareKey(q, p);
        AlikeBoth(b.paths, q, p);
      }
    }
    PlacedLast(b.paths, b.paths, p, k, offers);
    CountAlikeNone(rejected, p);
    CountsPlacedLast(b, rejected, p, 0);
  }

  /** If one of two alike paths has a like in the list, so has the other. */
  lemma AlikeBoth(paths: seq<PartialPath>, p: PartialPath, q: PartialPath)
    requires Alike(p, q) && exists r :: r in paths && Alike(p, r)
    ensures exists r :: r in paths && Alike(q, r)
  {
    var r :| r in paths && Alike(p, r);
    assert Alike(q, r);
  }

  /** The new path takes the place of one that it shadows. */
  lemma RepresentsBetter(links: Precedences, b: Bucket, k: PathKey, offers: seq<PartialPath>,
                         rejected: seq<PartialPath>, p: PartialPath)
    requires Represents(b, k, offers, rejected) && Key(p) == k
    requires RealOffers(links, offers) && Real(links, p.edges)
    requires Position(b.paths, p).Some? && Shadows(p.edges, b.paths[Position(b.paths, p).value].edges)
    ensures Represents(OfferTo(b, p).bucket, k, offers + [p], rejected)
  {
    hide Key, Alike, Shadows, Real, CountAlike;
    OfferKeepsValid(b, p);
    var at := Position(b.paths, p).value;
    var beaten := b.paths[at];
    var rest := Bucket(Without(b.paths, at), Without(b.counts, at));
    WithoutBeaten(b, p, at);
    CountsWithout(b, rejected, at);
    forall q | q in offers && Alike(q, p)
      ensures !Shadows(q.edges, p.edges)
    {
      if Shadows(q.edges, p.edges) {
        assert beaten in b.paths;
        AlikeTransitive(q, p, beaten);
        ShadowsTransitive(links, q.edges, p.edges, beaten.edges);
      }
    }
    PlacedLast(b.paths, rest.paths, p, k, offers);
    CountAlikeSame(rejected, p, beaten);
    CountsPlacedLast(rest, rejected, p, b.counts[at]);
  }

  lemma AlikeTransitive(p: PartialPath, q: PartialPath, r: PartialPath)
    requires Alike(p, q) && Alike(q, r)
    ensures Alike(p, r)
  {
  }

  lemma WithoutBeaten(b: Bucket, p: PartialPath, at: nat)
    requires b.Valid() && at < |b.paths| && Alike(p, b.paths[at])
    ensures var rest := Without(b.paths, at);
            && (forall q :: q in rest ==> q in b.paths && !Alike(p, q))
            && (forall q :: q in b.paths ==> q in rest || Alike(q, p))
  {
    var rest := Without(b.paths, at);
    forall i | 0 <= i < |rest|
      ensures rest[i] in b.paths && !Alike(p, rest[i])
    {
      OthersUnlike(b, p, at, if i < at then i else i + 1);
    }
    forall i | 0 <= i < |b.paths|
      ensures b.paths[i] in rest || Alike(b.paths[i], p)
    {
      if i != at {
        assert rest[if i < at then i else i - 1] == b.paths[i];
      }
    }
  }

  lemma CountsWithout(b: Bucket, rejected: seq<PartialPath>, at: nat)
    requires CountsRejected(b, rejected) && at < |b.paths|
    ensures CountsRejected(Bucket(Without(b.paths, at), Without(b.counts, at)), rejected)
  {
    hide CountAlike;
  }

  /** The new path is turned away. */
  lemma RepresentsWorse(b: Bucket, k: PathKey, offers: seq<PartialPath>, rejected: seq<PartialPath>, p: PartialPath)
    requires Represents(b, k, offers, rejected) && Key(p) == k
    requires Position(b.paths, p).Some? && !Shadows(p.edges, b.paths[Position(b.paths, p).value].edges)
    ensures Represents(OfferTo(b, p).bucket, k, offers + [p], rejected + [p])
  {
    hide Key, Alike, Shadows, CountAlike, HoldsOffers, CoversOffers, Unbeaten;
    OfferKeepsValid(b, p);
    var at := Position(b.paths, p).value;
    forall i | 0 <= i < |b.paths|
      ensures CountAlike(rejected + [p], b.paths[i]) == CountAlike(rejected, b.paths[i]) + if i == at then 1 else 0
      ensures i != at ==> !Alike(p, b.paths[i])
    {
      CountAlikeSnoc(rejected, p, b.paths[i]);
      if i != at {
        OthersUnlike(b, p, at, i);
      }
    }
    assert b.paths[at] in b.paths && Alike(p, b.paths[at]);
    PlacedNowhere(b.paths, b.paths[at], p, k, offers);
  }

  /** An offer of another key changes nothing for a bucket. */
  lemma RepresentsOther(b: Bucket, k: PathKey, offers: seq<PartialPath>, rejected: seq<PartialPath>, p: PartialPath)
    requires Represents(b, k, offers, rejected) && Key(p) != k
    ensures Represents(b, k, offers + [p], rejected) && Represents(b, k, offers + [p], rejected + [p])
  {
    hide Key, Alike, Shadows, CountAlike;
    forall q | q in b.paths
      ensures !Alike(p, q)
    {
      if Alike(p, q) {
        AlikeShareKey(p, q);
      }
    }
    forall i | 0 <= i < |b.paths|
      ensures CountAlike(rejected + [p], b.paths[i]) == CountAlike(rejected, b.paths[i])
    {
      CountAlikeSnoc(rejected, p, b.paths[i]);
    }
  }

  /** Over any sequence of offers of real paths, every bucket represents the offers of its key. */
  lemma {:induction false} BucketsRepresentOffers(links: Precedences, offers: seq<PartialPath>, k: PathKey)
    requires RealOffers(links, offers)
    ensures Represents(OfferAll(offers).detector.At(k), k, offers, OfferAll(offers).rejected)
    ensures forall p :: p in OfferAll(offers).rejected ==> p in offers
  {
    hide Represents, OfferTo, Key, Real;
    if offers == [] {
      EmptyRepresents(k);
    } else {
      var front, p := offers[..|offers| - 1], offers[|offers| - 1];
      assert offers == front + [p];
      BucketsRepresentOffers(links, front, k);
      var h := OfferAll(front);
      if Key(p) == k {
        RepresentsOffer(links, h.detector.At(k), k, front, h.rejected, p);
      } else {
        RepresentsOther(h.detector.At(k), k, front, h.rejected, p);
      }
    }
  }

  lemma EmptyRepresents(k: PathKey)
    ensures Represents(EMPTY_BUCKET, k, [], [])
  {
  }

  lemma RepresentsOffer(links: Precedences, b: Bucket, k: PathKey, offers: seq<PartialPath>, rejected: seq<PartialPath>,
                        p: PartialPath)
    requires Represents(b, k, offers, rejected) && Key(p) == k
    requires RealOffers(links, offers) && Real(links, p.edges)
    requires forall q :: q in rejected ==> q in offers
    ensures Represents(OfferTo(b, p).bucket, k, offers + [p],
                       if OfferTo(b, p).similar then rejected + [p] else rejected)
  {
    match Position(b.paths, p)
    case None => RepresentsNew(b, k, offers, rejected, p);
    case Some(i) =>
      if Shadows(p.edges, b.paths[i].edges) {
        RepresentsBetter(links, b, k, offers, rejected, p);
      } else {
        RepresentsWorse(b, k, offers, rejected, p);
      }
  }

  // ---------------------------------------------------------------------------------------------
  // The counts

  ghost function Sum(s: seq<nat>): nat {
    if s == [] then 0 else s[0] + Sum(s[1..])
  }

  /** The sum of all counts in all buckets. */
  ghost function Total(buckets: map<PathKey, Bucket>): nat {
    if buckets == map[] then 0
    else
      var k :| k in buckets;
      Sum(buckets[k].counts) + Total(buckets - {k})
  }

  lemma {:induction false} SumConcat(a: seq<nat>, b: seq<nat>)
    ensures Sum(a + b) == Sum(a) + Sum(b)
  {
    if a == [] {
      assert a + b == b;
    } else {
      assert (a + b)[1..] == a[1..] + b;
      SumConcat(a[1..], b);
    }
  }

  lemma SumAt(s: seq<nat>, i: nat)
    requires i < |s|
    ensures Sum(s) == Sum(Without(s, i)) + s[i]
  {
    assert s == s[..i] + ([s[i]] + s[i + 1..]);
    SumConcat(s[..i], [s[i]] + s[i + 1..]);
    SumConcat([s[i]], s[i + 1..]);
    SumConcat(s[..i], s[i + 1..]);
  }

  lemma OfferSum(b: Bucket, p: PartialPath)
    requires b.Valid()
    ensures Sum(OfferTo(b, p).bucket.counts) == Sum(b.counts) + if OfferTo(b, p).similar then 1 else 0
  {
    match Position(b.paths, p)
    case None => SumConcat(b.counts, [0]);
    case Some(i) =>
      SumAt(b.counts, i);
      SumConcat(Without(b.counts, i), [b.counts[i]]);
      var counted := b.counts[i := b.counts[i] + 1];
      SumAt(counted, i);
      assert Without(counted, i) == Without(b.counts, i);
  }

  lemma {:induction false} TotalAt(buckets: map<PathKey, Bucket>, k: PathKey)
    requires k in buckets
    ensures Total(buckets) == Sum(buckets[k].counts) + Total(buckets - {k})
    decreases |buckets|
  {
    var j :| j in buckets && Total(buckets) == Sum(buckets[j].counts) + Total(buckets - {j});
    if j != k {
      TotalAt(buckets - {j}, k);
      TotalAt(buckets - {k}, j);
      assert buckets - {j} - {k} == buckets - {k} - {j};
    }
  }

  lemma TotalUpdate(d: Detector, k: PathKey, b: Bucket)
    ensures Total(d.buckets[k := b]) == Total(d.buckets) - Sum(d.At(k).counts) + Sum(b.counts)
  {
    TotalAt(d.buckets[k := b], k);
    if k in d.buckets {
      TotalAt(d.buckets, k);
      assert d.buckets[k := b] - {k} == d.buckets - {k};
    } else {
      assert d.buckets[k := b] - {k} == d.buckets;
    }
  }

  /** Over any sequence of offers, the counts sum to the number of paths turned away. */
  lemma {:induction false} CountsSumToRejections(offers: seq<PartialPath>)
    ensures Total(OfferAll(offers).detector.buckets) == |OfferAll(offers).rejected|
  {
    hide OfferTo, Total, Sum, Key;
    if offers == [] {
      TotalNone();
    } else {
      var h := OfferAll(offers[..|offers| - 1]);
      var p := offers[|offers| - 1];
      CountsSumToRejections(offers[..|offers| - 1]);
      OfferSum(h.detector.At(Key(p)), p);
      TotalUpdate(h.detector, Key(p), OfferTo(h.detector.At(Key(p)), p).bucket);
    }
  }

  lemma TotalNone()
    ensures Total(map[]) == 0
  {
  }
}
