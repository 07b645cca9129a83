/**
 The database of stored partial paths and its indexes.  Paths that start at the root node are found by
 symbol stack: the lookup gives exactly those whose precondition is compatible, each of them once.
 */
module RootIndex {
  import opened Wrappers
  import opened Graphs
  import opened Patterns
  import opened Unification
  import opened PartialPaths
  import opened Deques
  import opened SymbolStackKeys
  import opened SupplementalArenas

  function SymbolsOf(s: PartialSymbolStack): (r: seq<Symbol>)
    ensures |r| == |s.symbols|
  {
    seq(|s.symbols|, i requires 0 <= i < |s.symbols| => s.symbols[i].symbol)
  }

  /** The kinds of entries in the indexes. */
  datatype Query =
    | Exactly(key: seq<Symbol>, variable: bool)
    | LongerThan(key: seq<Symbol>)
    | StartingAt(node: NodeHandle)

  predicate Matches(g: Graph, q: Query, p: PartialPath) {
    match q
    case Exactly(key, variable) =>
      g.Kind(p.startNode).Root? && SymbolsOf(p.symbolPre) == key && (p.symbolPre.variable.Some? <==> variable)
    case LongerThan(key) => g.Kind(p.startNode).Root? && key < SymbolsOf(p.symbolPre)
    case StartingAt(n) => !g.Kind(p.startNode).Root? && p.startNode == n
  }

  /** The handles of the matching paths, in the order in which the paths were added. */
  function Handles(g: Graph, q: Query, paths: seq<PartialPath>): seq<nat> {
    if paths == [] then []
    else
      Handles(g, q, paths[..|paths| - 1]) + if Matches(g, q, paths[|paths| - 1]) then [|paths| - 1] else []
  }

  lemma HandlesSnoc(g: Graph, q: Query, paths: seq<PartialPath>, p: PartialPath)
    ensures Handles(g, q, paths + [p]) == Handles(g, q, paths) + if Matches(g, q, p) then [|paths|] else []
  {
    assert (paths + [p])[..|paths|] == paths;
  }

  lemma {:induction false} HandlesAre(g: Graph, q: Query, paths: seq<PartialPath>, h: nat)
    ensures h in Handles(g, q, paths) <==> h < |paths| && Matches(g, q, paths[h])
  {
    if paths != [] {
      HandlesAre(g, q, paths[..|paths| - 1], h);
    }
  }

  /** Nothing is in the list twice. */
  predicate Once(s: seq<nat>) {
    forall i, j :: 0 <= i < j < |s| ==> s[i] != s[j]
  }

  lemma {:induction false} HandlesOnce(g: Graph, q: Query, paths: seq<PartialPath>)
    ensures Once(Handles(g, q, paths))
  {
    if paths != [] {
      var front := paths[..|paths| - 1];
      HandlesOnce(g, q, front);
      forall i | 0 <= i < |Handles(g, q, front)|
        ensures Handles(g, q, front)[i] < |front|
      {
        HandlesAre(g, q, front, Handles(g, q, front)[i]);
        assert Handles(g, q, front)[i] in Handles(g, q, front);
      }
    }
  }

  /** There is a key for every non-empty prefix of the precondition of every root path. */
  ghost predicate PrefixesHaveKeys(g: Graph, keys: seq<KeyCell>, paths: seq<PartialPath>)
    requires KeysLinked(keys)
  {
    forall h, j :: 0 <= h < |paths| && g.Kind(paths[h].startNode).Root? && 0 < j <= |SymbolsOf(paths[h].symbolPre)| ==>
      HasKey(keys, SymbolsOf(paths[h].symbolPre)[..j])
  }

  /** An index by key holds, for every key, what it is an index of. */
  ghost predicate Indexes(index: seq<seq<nat>>, g: Graph, keys: seq<KeyCell>, paths: seq<PartialPath>, kind: Kind)
    requires KeysLinked(keys)
  {
    && |index| <= |keys|
    && forall i :: 0 <= i < |keys| ==> Lookup(index, i, []) == Handles(g, QueryOf(kind, Symbols(keys, At(i))), paths)
  }

  datatype Kind = WithVariable | WithoutVariable | Prefix

  function QueryOf(kind: Kind, key: seq<Symbol>): Query {
    match kind
    case WithVariable => Exactly(key, true)
    case WithoutVariable => Exactly(key, false)
    case Prefix => LongerThan(key)
  }

  /** A key that is not there yet matches nothing that is stored. */
  lemma {:induction false} NewKeyMatchesNothing(g: Graph, keys: seq<KeyCell>, paths: seq<PartialPath>, kind: Kind,
                                                key: seq<Symbol>)
    requires KeysLinked(keys) && PrefixesHaveKeys(g, keys, paths) && key != [] && !HasKey(keys, key)
    ensures Handles(g, QueryOf(kind, key), paths) == []
  {
    if paths != [] {
      var p := paths[|paths| - 1];
      assert forall h :: 0 <= h < |paths| - 1 ==> paths[..|paths| - 1][h] == paths[h];
      NewKeyMatchesNothing(g, keys, paths[..|paths| - 1], kind, key);
      if Matches(g, QueryOf(kind, key), p) {
        MatchedPrefix(g, kind, key, p);
      }
    }
  }

  lemma MatchedPrefix(g: Graph, kind: Kind, key: seq<Symbol>, p: PartialPath)
    requires Matches(g, QueryOf(kind, key), p)
    ensures |key| <= |SymbolsOf(p.symbolPre)| && SymbolsOf(p.symbolPre)[..|key|] == key
  {
  }

  /** New keys do not invalidate an index. */
  lemma IndexesMoreKeys(index: seq<seq<nat>>, g: Graph, keys: seq<KeyCell>, after: seq<KeyCell>,
                        cache: map<KeyCell, nat>, paths: seq<PartialPath>, kind: Kind)
    requires KeysLinked(keys) && keys <= after && Consed(after, cache)
    requires PrefixesHaveKeys(g, keys, paths) && Indexes(index, g, keys, paths, kind)
    ensures Indexes(index, g, after, paths, kind)
  {
    forall i | 0 <= i < |after|
      ensures Lookup(index, i, []) == Handles(g, QueryOf(kind, Symbols(after, At(i))), paths)
    {
      if i < |keys| {
        SymbolsKept(after, keys, At(i));
      } else {
        NewKeyIsNew(keys, after, cache, i);
        NewKeyMatchesNothing(g, keys, paths, kind, Symbols(after, At(i)));
      }
    }
  }

  lemma NewKeyIsNew(keys: seq<KeyCell>, after: seq<KeyCell>, cache: map<KeyCell, nat>, i: nat)
    requires KeysLinked(keys) && keys <= after && Consed(after, cache) && |keys| <= i < |after|
    ensures Symbols(after, At(i)) != [] && !HasKey(keys, Symbols(after, At(i)))
  {
    SymbolsLength(after, At(i));
    forall k | IsKey(keys, k)
      ensures Symbols(keys, k) != Symbols(after, At(i))
    {
      SymbolsKept(after, keys, k);
      SameSymbolsSameKey(after, cache, k, At(i));
    }
  }

  lemma KeysKept(g: Graph, keys: seq<KeyCell>, after: seq<KeyCell>, paths: seq<PartialPath>)
    requires KeysLinked(keys) && KeysLinked(after) && keys <= after && PrefixesHaveKeys(g, keys, paths)
    ensures PrefixesHaveKeys(g, after, paths)
  {
    hide Symbols;
    forall h, j | 0 <= h < |paths| && g.Kind(paths[h].startNode).Root? && 0 < j <= |SymbolsOf(paths[h].symbolPre)|
      ensures HasKey(after, SymbolsOf(paths[h].symbolPre)[..j])
    {
      var k :| IsKey(keys, k) && Symbols(keys, k) == SymbolsOf(paths[h].symbolPre)[..j];
      SymbolsKept(after, keys, k);
    }
  }

  /** A key's tails are the keys of its prefixes. */
  lemma {:induction false} TailsArePrefixes(keys: seq<KeyCell>, k: List, j: nat)
    requires KeysLinked(keys) && IsKey(keys, k) && j <= |Symbols(keys, k)|
    ensures HasKey(keys, Symbols(keys, k)[..j])
    decreases if k.At? then k.index + 1 else 0
  {
    if j == |Symbols(keys, k)| {
      assert Symbols(keys, k)[..j] == Symbols(keys, k);
    } else {
      TailsArePrefixes(keys, keys[k.index].tail, j);
      assert Symbols(keys, keys[k.index].tail)[..j] == Symbols(keys, k)[..j];
    }
  }

  /** An index with one more entry, where the new path belongs. */
  lemma IndexesOneMore(index: seq<seq<nat>>, after: seq<seq<nat>>, g: Graph, keys: seq<KeyCell>,
                       paths: seq<PartialPath>, kind: Kind, p: PartialPath)
    requires KeysLinked(keys) && Indexes(index, g, keys, paths, kind)
    requires |after| <= |keys|
    requires forall i :: 0 <= i < |keys| ==>
      Lookup(after, i, []) ==
      Lookup(index, i, []) + if Matches(g, QueryOf(kind, Symbols(keys, At(i))), p) then [|paths|] else []
    ensures Indexes(after, g, keys, paths + [p], kind)
  {
    forall i | 0 <= i < |keys|
      ensures Lookup(after, i, []) == Handles(g, QueryOf(kind, Symbols(keys, At(i))), paths + [p])
    {
      HandlesSnoc(g, QueryOf(kind, Symbols(keys, At(i))), paths, p);
    }
  }

  /** The new path's own key is the only one that it is stored under exactly. */
  lemma ExactEntry(index: seq<seq<nat>>, after: seq<seq<nat>>, g: Graph, keys: seq<KeyCell>, cache: map<KeyCell, nat>,
                   paths: seq<PartialPath>, variable: bool, p: PartialPath, key: List)
    requires var kind := if variable then WithVariable else WithoutVariable;
             Consed(keys, cache) && Indexes(index, g, keys, paths, kind)
    requires g.Kind(p.startNode).Root? && IsKey(keys, key) && key.At? && Symbols(keys, key) == SymbolsOf(p.symbolPre)
    requires after == if p.symbolPre.variable.Some? == variable then PushedAt(index, key.index, |paths|) else index
    ensures Indexes(after, g, keys, paths + [p], if variable then WithVariable else WithoutVariable)
  {
    var kind := if variable then WithVariable else WithoutVariable;
    forall i | 0 <= i < |keys|
      ensures Lookup(after, i, []) ==
              Lookup(index, i, []) + if Matches(g, QueryOf(kind, Symbols(keys, At(i))), p) then [|paths|] else []
    {
      SameSymbolsSameKey(keys, cache, At(i), key);
    }
    IndexesOneMore(index, after, g, keys, paths, kind, p);
  }

  /** A path that matches no key leaves an index as it is. */
  lemma NoEntry(index: seq<seq<nat>>, g: Graph, keys: seq<KeyCell>, paths: seq<PartialPath>, kind: Kind, p: PartialPath)
    requires KeysLinked(keys) && Indexes(index, g, keys, paths, kind)
    requires !g.Kind(p.startNode).Root? || p.symbolPre.symbols == []
    ensures Indexes(index, g, keys, paths + [p], kind)
  {
    forall i | 0 <= i < |keys|
      ensures !Matches(g, QueryOf(kind, Symbols(keys, At(i))), p)
    {
      SymbolsLength(keys, At(i));
    }
    IndexesOneMore(index, index, g, keys, paths, kind, p);
  }

  lemma NewPathHasKeys(g: Graph, keys: seq<KeyCell>, paths: seq<PartialPath>, p: PartialPath)
    requires KeysLinked(keys) && PrefixesHaveKeys(g, keys, paths)
    requires g.Kind(p.startNode).Root? ==> HasKey(keys, SymbolsOf(p.symbolPre))
    ensures PrefixesHaveKeys(g, keys, paths + [p])
  {
    hide Symbols;
    forall h, j | 0 <= h < |paths + [p]| && g.Kind((paths + [p])[h].startNode).Root? &&
                  0 < j <= |SymbolsOf((paths + [p])[h].symbolPre)|
      ensures HasKey(keys, SymbolsOf((paths + [p])[h].symbolPre)[..j])
    {
      if h == |paths| {
        var k :| IsKey(keys, k) && Symbols(keys, k) == SymbolsOf(p.symbolPre);
        TailsArePrefixes(keys, k, j);
      }
    }
  }

  /** Part way through storing a path under the proper prefixes of its key: those longer than `k` are done. */
  ghost predicate PrefixesStored(index: seq<seq<nat>>, before: seq<seq<nat>>, keys: seq<KeyCell>, symbols: seq<Symbol>,
                                 h: nat, k: List)
    requires KeysLinked(keys) && IsKey(keys, k)
  {
    && |index| <= |keys|
    && forall i :: 0 <= i < |keys| ==>
         Lookup(index, i, []) ==
         Lookup(before, i, []) +
         if Symbols(keys, At(i)) < symbols && |Symbols(keys, At(i))| > |Symbols(keys, k)| then [h] else []
  }

  lemma PrefixStored(index: seq<seq<nat>>, before: seq<seq<nat>>, keys: seq<KeyCell>, cache: map<KeyCell, nat>,
                     symbols: seq<Symbol>, h: nat, k: List)
    requires Consed(keys, cache) && IsKey(keys, k) && k.At? && Symbols(keys, k) < symbols
    requires PrefixesStored(index, before, keys, symbols, h, k)
    ensures PrefixesStored(PushedAt(index, k.index, h), before, keys, symbols, h, keys[k.index].tail)
  {
    var after, tail := PushedAt(index, k.index, h), keys[k.index].tail;
    forall i | 0 <= i < |keys|
      ensures Lookup(after, i, []) ==
              Lookup(before, i, []) +
              if Symbols(keys, At(i)) < symbols && |Symbols(keys, At(i))| > |Symbols(keys, tail)| then [h] else []
    {
      SameSymbolsSameKey(keys, cache, At(i), k);
      if Symbols(keys, At(i)) < symbols && |Symbols(keys, At(i))| == |Symbols(keys, k)| {
        assert Symbols(keys, At(i)) == symbols[..|Symbols(keys, k)|] == Symbols(keys, k);
      }
    }
  }

  ghost function EndingAt(paths: seq<PartialPath>, n: NodeHandle): nat {
    if paths == [] then 0
    else EndingAt(paths[..|paths| - 1], n) + if paths[|paths| - 1].endNode == n then 1 else 0
  }

  class Database {
    var partialPaths: seq<PartialPath>
    const symbolStackKeys: KeyArena
    var pathsByStartNode: seq<seq<nat>>
    var rootPathsByPreconditionPrefix: seq<seq<nat>>
    var rootPathsByPreconditionWithVariable: seq<seq<nat>>
    var rootPathsByPreconditionWithoutVariable: seq<seq<nat>>
    var incomingPaths: seq<Degree>

    ghost predicate Valid(g: Graph)
      reads this, symbolStackKeys
    {
      && symbolStackKeys.Valid()
      && PrefixesHaveKeys(g, symbolStackKeys.keys, partialPaths)
      && Indexes(rootPathsByPreconditionWithVariable, g, symbolStackKeys.keys, partialPaths, WithVariable)
      && Indexes(rootPathsByPreconditionWithoutVariable, g, symbolStackKeys.keys, partialPaths, WithoutVariable)
      && Indexes(rootPathsByPreconditionPrefix, g, symbolStackKeys.keys, partialPaths, Prefix)
      && (forall n :: Lookup(pathsByStartNode, n, []) == Handles(g, StartingAt(n), partialPaths))
      && (forall n :: Lookup(incomingPaths, n, Zero) == Saturated(EndingAt(partialPaths, n)))
    }

    constructor (ghost g: Graph)
      ensures Valid(g) && partialPaths == [] && fresh(symbolStackKeys)
    {
      partialPaths := [];
      symbolStackKeys := new KeyArena();
      pathsByStartNode, incomingPaths := [], [];
      rootPathsByPreconditionPrefix := [];
      rootPathsByPreconditionWithVariable := [];
      rootPathsByPreconditionWithoutVariable := [];
    }

    /** Indexes a root path by the symbols of its precondition. */
    method AddRootPath(g: Graph, path: PartialPath, h: nat)
      requires Valid(g) && g.Kind(path.startNode).Root? && h == |partialPaths|
      modifies this`rootPathsByPreconditionPrefix, this`rootPathsByPreconditionWithVariable,
               this`rootPathsByPreconditionWithoutVariable, symbolStackKeys
      ensures symbolStackKeys.Valid()
      ensures PrefixesHaveKeys(g, symbolStackKeys.keys, partialPaths + [path])
      ensures Indexes(rootPathsByPreconditionWithVariable, g, symbolStackKeys.keys, partialPaths + [path], WithVariable)
      ensures Indexes(rootPathsByPreconditionWithoutVariable, g, symbolStackKeys.keys,
                      partialPaths + [path], WithoutVariable)
      ensures Indexes(rootPathsByPreconditionPrefix, g, symbolStackKeys.keys, partialPaths + [path], Prefix)
    {
      hide Symbols, Indexes, PrefixesHaveKeys, Handles, PrefixesStored, Matches, NewKeysWithin;
      ghost var before := symbolStackKeys.keys;
      var symbols := SymbolsOf(path.symbolPre);
      var key := symbolStackKeys.FromSymbols(symbols);
      ghost var keys, cache := symbolStackKeys.keys, symbolStackKeys.cache;
      IndexesMoreKeys(rootPathsByPreconditionWithVariable, g, before, keys, cache, partialPaths, WithVariable);
      IndexesMoreKeys(rootPathsByPreconditionWithoutVariable, g, before, keys, cache, partialPaths, WithoutVariable);
      IndexesMoreKeys(rootPathsByPreconditionPrefix, g, before, keys, cache, partialPaths, Prefix);
      KeysKept(g, before, keys, partialPaths);
      NewPathHasKeys(g, keys, partialPaths, path);
      SymbolsLength(keys, key);
      if key != Empty {
        ghost var with, without := rootPathsByPreconditionWithVariable, rootPathsByPreconditionWithoutVariable;
        if path.symbolPre.variable.Some? {
          rootPathsByPreconditionWithVariable := PushedAt(rootPathsByPreconditionWithVariable, key.index, h);
        } else {
          rootPathsByPreconditionWithoutVariable := PushedAt(rootPathsByPreconditionWithoutVariable, key.index, h);
        }
        ExactEntry(with, rootPathsByPreconditionWithVariable, g, keys, cache, partialPaths, true, path, key);
        ExactEntry(without, rootPathsByPreconditionWithoutVariable, g, keys, cache, partialPaths, false, path, key);
        AddPrefixes(g, path, symbols, key, h);
      } else {
        NoEntry(rootPathsByPreconditionWithVariable, g, keys, partialPaths, WithVariable, path);
        NoEntry(rootPathsByPreconditionWithoutVariable, g, keys, partialPaths, WithoutVariable, path);
        NoEntry(rootPathsByPreconditionPrefix, g, keys, partialPaths, Prefix, path);
      }
    }

    /** Stores a path under all proper prefixes of its key. */
    method AddPrefixes(g: Graph, path: PartialPath, symbols: seq<Symbol>, key: List, h: nat)
      requires symbolStackKeys.Valid() && IsKey(symbolStackKeys.keys, key) && key.At? && h == |partialPaths|
      requires symbols == SymbolsOf(path.symbolPre) == Symbols(symbolStackKeys.keys, key) &&
               g.Kind(path.startNode).Root?
      requires Indexes(rootPathsByPreconditionPrefix, g, symbolStackKeys.keys, partialPaths, Prefix)
      modifies this`rootPathsByPreconditionPrefix
      ensures Indexes(rootPathsByPreconditionPrefix, g, symbolStackKeys.keys, partialPaths + [path], Prefix)
    {
      hide Handles, PrefixesStored, HasKey;
      ghost var keys, cache := symbolStackKeys.keys, symbolStackKeys.cache;
      ghost var before := rootPathsByPreconditionPrefix;
      var k := symbolStackKeys.PopBack(key);
      NoPrefixStored(before, g, keys, partialPaths, symbols, h, k);
      TailShorter(keys, key);
      while k != Empty
        invariant IsKey(keys, k) && Symbols(keys, k) < symbols
        invariant PrefixesStored(rootPathsByPreconditionPrefix, before, keys, symbols, h, k)
        decreases if k.At? then k.index + 1 else 0
      {
        PrefixStored(rootPathsByPreconditionPrefix, before, keys, cache, symbols, h, k);
        TailShorter(keys, k);
        rootPathsByPreconditionPrefix := PushedAt(rootPathsByPreconditionPrefix, k.index, h);
        k := symbolStackKeys.PopBack(k);
      }
      AllPrefixesStored(rootPathsByPreconditionPrefix, before, g, keys, partialPaths, path, h);
    }

    /** Adds a path; its handle is its position. */
    method AddPartialPath(g: Graph, path: PartialPath) returns (h: nat)
      requires Valid(g)
      modifies this, symbolStackKeys
      ensures Valid(g) && h == |old(partialPaths)| && partialPaths == old(partialPaths) + [path]
    {
      hide Indexes, PrefixesHaveKeys, Handles, EndingAt;
      h := |partialPaths|;
      StartEntry(g, pathsByStartNode, partialPaths, path);
      EndEntry(incomingPaths, partialPaths, path);
      if g.Kind(path.startNode).Root? {
        AddRootPath(g, path, h);
      } else {
        NoEntry(rootPathsByPreconditionWithVariable, g, symbolStackKeys.keys, partialPaths, WithVariable, path);
        NoEntry(rootPathsByPreconditionWithoutVariable, g, symbolStackKeys.keys, partialPaths, WithoutVariable, path);
        NoEntry(rootPathsByPreconditionPrefix, g, symbolStackKeys.keys, partialPaths, Prefix, path);
        NewPathHasKeys(g, symbolStackKeys.keys, partialPaths, path);
        pathsByStartNode := PushedAt(pathsByStartNode, path.startNode, h);
      }
      incomingPaths := Updated(incomingPaths, path.endNode, Lookup(incomingPaths, path.endNode, Zero).Plus(One), Zero);
      partialPaths := partialPaths + [path];
    }

    /** The root paths stored for a symbol stack. */
    method FindFromRoot(g: Graph, stack: PartialSymbolStack) returns (result: seq<nat>)
      requires Valid(g)
      modifies symbolStackKeys
      ensures Valid(g) && result == RootCandidates(g, partialPaths, SymbolsOf(stack), stack.variable.Some?)
    {
      hide PrefixesHaveKeys, Handles, NewKeysWithin, HasKey, Indexes, Symbols;
      ghost var before := symbolStackKeys.keys;
      var symbols := SymbolsOf(stack);
      var key := symbolStackKeys.FromSymbols(symbols);
      ghost var keys, cache := symbolStackKeys.keys, symbolStackKeys.cache;
      IndexesMoreKeys(rootPathsByPreconditionWithVariable, g, before, keys, cache, partialPaths, WithVariable);
      IndexesMoreKeys(rootPathsByPreconditionWithoutVariable, g, before, keys, cache, partialPaths, WithoutVariable);
      IndexesMoreKeys(rootPathsByPreconditionPrefix, g, before, keys, cache, partialPaths, Prefix);
      KeysKept(g, before, keys, partialPaths);
      SymbolsLength(keys, key);
      result := [];
      if key.At? {
        IndexesAt(rootPathsByPreconditionWithoutVariable, g, keys, partialPaths, WithoutVariable, key.index);
        IndexesAt(rootPathsByPreconditionPrefix, g, keys, partialPaths, Prefix, key.index);
        var exact := Get(rootPathsByPreconditionWithoutVariable, key.index);
        if exact.Some? {
          result := result + exact.value;
        }
        if stack.variable.Some? {
          var longer := Get(rootPathsByPreconditionPrefix, key.index);
          if longer.Some? {
            result := result + longer.value;
          }
        }
      }
      var shorter := FindShorter(g, key);
      result := result + shorter;
    }

    /** The paths stored with a variable under the key or one of its prefixes. */
    method FindShorter(g: Graph, start: List) returns (result: seq<nat>)
      requires symbolStackKeys.Valid() && IsKey(symbolStackKeys.keys, start)
      requires Indexes(rootPathsByPreconditionWithVariable, g, symbolStackKeys.keys, partialPaths, WithVariable)
      ensures result == PrefixCandidates(g, partialPaths, Symbols(symbolStackKeys.keys, start))
    {
      hide Handles, Indexes;
      ghost var keys := symbolStackKeys.keys;
      ghost var all := PrefixCandidates(g, partialPaths, Symbols(keys, start));
      result := [];
      var key := start;
      while key != Empty
        invariant IsKey(keys, key)
        invariant result + PrefixCandidates(g, partialPaths, Symbols(keys, key)) == all
        decreases if key.At? then key.index + 1 else 0
      {
        IndexesAt(rootPathsByPreconditionWithVariable, g, keys, partialPaths, WithVariable, key.index);
        PrefixCandidatesStep(g, partialPaths, keys, key);
        var shorter := Get(rootPathsByPreconditionWithVariable, key.index);
        ghost var more := Handles(g, Exactly(Symbols(keys, key), true), partialPaths);
        ghost var rest := PrefixCandidates(g, partialPaths, Symbols(keys, keys[key.index].tail));
        assert (result + more) + rest == result + (more + rest);
        if shorter.Some? {
          result := result + shorter.value;
        } else {
          assert result + more == result;
        }
        key := symbolStackKeys.PopBack(key);
      }
      assert result + [] == result;
    }

    /** All paths that start at a node other than the root. */
    method FindFromNode(g: Graph, n: NodeHandle) returns (result: seq<nat>)
      requires Valid(g)
      ensures result == Handles(g, StartingAt(n), partialPaths)
    {
      var paths := Get(pathsByStartNode, n);
      assert Lookup(pathsByStartNode, n, []) == Handles(g, StartingAt(n), partialPaths);
      result := if paths.Some? then paths.value else [];
    }

    /** The stored paths that may continue a path. */
    method FindCandidates(g: Graph, path: PartialPath) returns (result: seq<nat>)
      requires Valid(g)
      modifies symbolStackKeys
      ensures Valid(g) && result == Candidates(g, partialPaths, path)
    {
      if g.Kind(path.endNode).Root? {
        result := FindFromRoot(g, path.symbolPost);
      } else {
        result := FindFromNode(g, path.endNode);
      }
    }
  }

  lemma IndexesAt(index: seq<seq<nat>>, g: Graph, keys: seq<KeyCell>, paths: seq<PartialPath>, kind: Kind, i: nat)
    requires KeysLinked(keys) && Indexes(index, g, keys, paths, kind) && i < |keys|
    ensures Lookup(index, i, []) == Handles(g, QueryOf(kind, Symbols(keys, At(i))), paths)
  {
  }

  lemma TailShorter(keys: seq<KeyCell>, k: List)
    requires KeysLinked(keys) && IsKey(keys, k) && k.At?
    ensures Symbols(keys, keys[k.index].tail) < Symbols(keys, k)
  {
  }

  lemma NoPrefixStored(index: seq<seq<nat>>, g: Graph, keys: seq<KeyCell>, paths: seq<PartialPath>,
                       symbols: seq<Symbol>, h: nat, k: List)
    requires KeysLinked(keys) && IsKey(keys, k) && Indexes(index, g, keys, paths, Prefix)
    requires |symbols| == |Symbols(keys, k)| + 1
    ensures PrefixesStored(index, index, keys, symbols, h, k)
  {
    hide Handles, Symbols;
    forall i | 0 <= i < |keys|
      ensures !(Symbols(keys, At(i)) < symbols && |Symbols(keys, At(i))| > |Symbols(keys, k)|)
    {
    }
  }

  lemma AllPrefixesStored(index: seq<seq<nat>>, before: seq<seq<nat>>, g: Graph, keys: seq<KeyCell>,
                          paths: seq<PartialPath>, p: PartialPath, h: nat)
    requires KeysLinked(keys) && Indexes(before, g, keys, paths, Prefix) && h == |paths| && g.Kind(p.startNode).Root?
    requires PrefixesStored(index, before, keys, SymbolsOf(p.symbolPre), h, Empty)
    ensures Indexes(index, g, keys, paths + [p], Prefix)
  {
    hide Handles;
    forall i | 0 <= i < |keys|
      ensures |Symbols(keys, At(i))| > 0
    {
      SymbolsLength(keys, At(i));
    }
    IndexesOneMore(before, index, g, keys, paths, Prefix, p);
  }

  lemma StartEntry(g: Graph, index: seq<seq<nat>>, paths: seq<PartialPath>, p: PartialPath)
    requires forall n :: Lookup(index, n, []) == Handles(g, StartingAt(n), paths)
    ensures var after := if g.Kind(p.startNode).Root? then index else PushedAt(index, p.startNode, |paths|);
            forall n :: Lookup(after, n, []) == Handles(g, StartingAt(n), paths + [p])
  {
    forall n {
      HandlesSnoc(g, StartingAt(n), paths, p);
    }
  }

  lemma EndEntry(incoming: seq<Degree>, paths: seq<PartialPath>, p: PartialPath)
    requires forall n :: Lookup(incoming, n, Zero) == Saturated(EndingAt(paths, n))
    ensures var after := Updated(incoming, p.endNode, Lookup(incoming, p.endNode, Zero).Plus(One), Zero);
            forall n :: Lookup(after, n, Zero) == Saturated(EndingAt(paths + [p], n))
  {
    assert (paths + [p])[..|paths|] == paths;
    SaturatedPlus(EndingAt(paths, p.endNode), 1);
  }

  // ---------------------------------------------------------------------------------------------
  // What the lookup gives

  /** The paths with a variable whose key is a non-empty prefix of these symbols, longest first. */
  function PrefixCandidates(g: Graph, paths: seq<PartialPath>, symbols: seq<Symbol>): seq<nat> {
    if symbols == [] then []
    else Handles(g, Exactly(symbols, true), paths) + PrefixCandidates(g, paths, symbols[..|symbols| - 1])
  }

  function RootCandidates(g: Graph, paths: seq<PartialPath>, symbols: seq<Symbol>, variable: bool): seq<nat> {
    if symbols == [] then []
    else
      (Handles(g, Exactly(symbols, false), paths) + if variable then Handles(g, LongerThan(symbols), paths) else [])
      + PrefixCandidates(g, paths, symbols)
  }

  lemma PrefixCandidatesStep(g: Graph, paths: seq<PartialPath>, keys: seq<KeyCell>, k: List)
    requires KeysLinked(keys) && IsKey(keys, k) && k.At?
    ensures PrefixCandidates(g, paths, Symbols(keys, k)) ==
            Handles(g, Exactly(Symbols(keys, k), true), paths) +
              PrefixCandidates(g, paths, Symbols(keys, keys[k.index].tail))
  {
    var symbols := Symbols(keys, k);
    assert symbols[..|symbols| - 1] == Symbols(keys, keys[k.index].tail);
  }

  /** Compatibility in terms of unification's cases: the same symbols as far as both go, and a variable for the rest. */
  predicate Compatible(a: seq<Symbol>, aVariable: bool, b: seq<Symbol>, bVariable: bool) {
    if |a| == |b| then a == b
    else if |a| < |b| then aVariable && a < b
    else bVariable && b < a
  }

  predicate IsCandidate(g: Graph, p: PartialPath, symbols: seq<Symbol>, variable: bool) {
    && g.Kind(p.startNode).Root? && p.symbolPre.symbols != []
    && Compatible(symbols, variable, SymbolsOf(p.symbolPre), p.symbolPre.variable.Some?)
  }

  lemma {:induction false} PrefixCandidatesAre(g: Graph, paths: seq<PartialPath>, symbols: seq<Symbol>, h: nat)
    ensures h in PrefixCandidates(g, paths, symbols) <==>
            && h < |paths| && g.Kind(paths[h].startNode).Root? && paths[h].symbolPre.symbols != []
            && paths[h].symbolPre.variable.Some? && SymbolsOf(paths[h].symbolPre) <= symbols
  {
    if symbols != [] {
      HandlesAre(g, Exactly(symbols, true), paths, h);
      PrefixCandidatesAre(g, paths, symbols[..|symbols| - 1], h);
      if h < |paths| {
        PrefixOrWhole(SymbolsOf(paths[h].symbolPre), symbols);
      }
    }
  }

  lemma PrefixOrWhole(a: seq<Symbol>, b: seq<Symbol>)
    requires b != []
    ensures a <= b <==> a == b || a <= b[..|b| - 1]
  {
    if a <= b && a != b {
      assert a == b[..|a|] == b[..|b| - 1][..|a|];
    }
    if a <= b[..|b| - 1] {
      assert a == b[..|b| - 1][..|a|] == b[..|a|];
    }
  }

  lemma JoinedOnce(a: seq<nat>, b: seq<nat>)
    requires Once(a) && Once(b) && forall h :: h in a ==> h !in b
    ensures Once(a + b)
  {
    forall i, j | 0 <= i < j < |a + b|
      ensures (a + b)[i] != (a + b)[j]
    {
      if i < |a| <= j {
        assert a[i] in a && b[j - |a|] in b;
      }
    }
  }

  lemma {:induction false} PrefixCandidatesOnce(g: Graph, paths: seq<PartialPath>, symbols: seq<Symbol>)
    ensures Once(PrefixCandidates(g, paths, symbols))
  {
    hide Handles, Matches;
    if symbols != [] {
      var front := symbols[..|symbols| - 1];
      HandlesOnce(g, Exactly(symbols, true), paths);
      PrefixCandidatesOnce(g, paths, front);
      forall h | h in Handles(g, Exactly(symbols, true), paths)
        ensures h !in PrefixCandidates(g, paths, front)
      {
        ExactIsNoPrefix(g, paths, symbols, h);
      }
      JoinedOnce(Handles(g, Exactly(symbols, true), paths), PrefixCandidates(g, paths, front));
    }
  }

  lemma ExactIsNoPrefix(g: Graph, paths: seq<PartialPath>, symbols: seq<Symbol>, h: nat)
    requires symbols != [] && h in Handles(g, Exactly(symbols, true), paths)
    ensures h !in PrefixCandidates(g, paths, symbols[..|symbols| - 1])
  {
    hide Handles, PrefixCandidates;
    HandlesAre(g, Exactly(symbols, true), paths, h);
    PrefixCandidatesAre(g, paths, symbols[..|symbols| - 1], h);
  }

  /**
   The root index agrees with brute force: for a symbol stack with symbols, the lookup gives exactly the
   stored root paths whose precondition has symbols and is compatible with it.
   */
  lemma RootCandidatesExact(g: Graph, paths: seq<PartialPath>, symbols: seq<Symbol>, variable: bool, h: nat)
    requires symbols != []
    ensures h in RootCandidates(g, paths, symbols, variable) <==>
            h < |paths| && IsCandidate(g, paths[h], symbols, variable)
  {
    hide Handles, PrefixCandidates;
    HandlesAre(g, Exactly(symbols, false), paths, h);
    HandlesAre(g, LongerThan(symbols), paths, h);
    PrefixCandidatesAre(g, paths, symbols, h);
    if h < |paths| {
      var key := SymbolsOf(paths[h].symbolPre);
      assert |key| == |symbols| ==> (key <= symbols <==> key == symbols);
    }
  }

  /** ... and gives each of them once. */
  lemma RootCandidatesOnce(g: Graph, paths: seq<PartialPath>, symbols: seq<Symbol>, variable: bool)
    ensures Once(RootCandidates(g, paths, symbols, variable))
  {
    hide Handles, PrefixCandidates, Matches;
    if symbols != [] {
      var exact := Handles(g, Exactly(symbols, false), paths);
      var longer := if variable then Handles(g, LongerThan(symbols), paths) else [];
      HandlesOnce(g, Exactly(symbols, false), paths);
      HandlesOnce(g, LongerThan(symbols), paths);
      PrefixCandidatesOnce(g, paths, symbols);
      forall h: nat
        ensures h in exact ==> h !in longer
        ensures h in exact + longer ==> h !in PrefixCandidates(g, paths, symbols)
      {
        KindsDisjoint(g, paths, symbols, h);
      }
      JoinedOnce(exact, longer);
      JoinedOnce(exact + longer, PrefixCandidates(g, paths, symbols));
    }
  }

  lemma KindsDisjoint(g: Graph, paths: seq<PartialPath>, symbols: seq<Symbol>, h: nat)
    ensures h in Handles(g, Exactly(symbols, false), paths) ==> h !in Handles(g, LongerThan(symbols), paths)
    ensures h in Handles(g, Exactly(symbols, false), paths) ==> h !in PrefixCandidates(g, paths, symbols)
    ensures h in Handles(g, LongerThan(symbols), paths) ==> h !in PrefixCandidates(g, paths, symbols)
  {
    hide Handles, PrefixCandidates;
    HandlesAre(g, Exactly(symbols, false), paths, h);
    HandlesAre(g, LongerThan(symbols), paths, h);
    PrefixCandidatesAre(g, paths, symbols, h);
  }

  /** What the lookup gives for a path that is to be continued. */
  function Candidates(g: Graph, paths: seq<PartialPath>, path: PartialPath): seq<nat> {
    if g.Kind(path.endNode).Root?
    then RootCandidates(g, paths, SymbolsOf(path.symbolPost), path.symbolPost.variable.Some?)
    else Handles(g, StartingAt(path.endNode), paths)
  }

  /** The paths that it should give, by brute force. */
  predicate Continues(g: Graph, path: PartialPath, p: PartialPath) {
    if g.Kind(path.endNode).Root?
    then path.symbolPost.symbols != [] && IsCandidate(g, p, SymbolsOf(path.symbolPost), path.symbolPost.variable.Some?)
    else !g.Kind(p.startNode).Root? && p.startNode == path.endNode
  }

  lemma CandidateHandles(g: Graph, paths: seq<PartialPath>, path: PartialPath, h: nat)
    ensures h in Candidates(g, paths, path) <==> h < |paths| && Continues(g, path, paths[h])
  {
    hide RootCandidates, Handles, IsCandidate;
    if !g.Kind(path.endNode).Root? {
      HandlesAre(g, StartingAt(path.endNode), paths, h);
    } else if path.symbolPost.symbols != [] {
      RootCandidatesExact(g, paths, SymbolsOf(path.symbolPost), path.symbolPost.variable.Some?, h);
    } else {
      NoSymbolsNoCandidates(g, paths, path.symbolPost.variable.Some?);
    }
  }

  lemma NoSymbolsNoCandidates(g: Graph, paths: seq<PartialPath>, variable: bool)
    ensures RootCandidates(g, paths, [], variable) == []
  {
  }

  /** The lookup agrees with brute force over all stored paths. */
  lemma CandidatesContinue(g: Graph, paths: seq<PartialPath>, path: PartialPath, p: PartialPath)
    ensures forall h :: h in Candidates(g, paths, path) ==> h < |paths|
    ensures (exists h :: h in Candidates(g, paths, path) && h < |paths| && paths[h] == p) <==>
            p in paths && Continues(g, path, p)
  {
    hide Candidates, Continues;
    forall h: nat {
      CandidateHandles(g, paths, path, h);
    }
    if p in paths && Continues(g, path, p) {
      var h :| 0 <= h < |paths| && paths[h] == p;
      assert h in Candidates(g, paths, path);
    }
  }

  lemma SymbolsOfCons(s: PartialSymbolStack)
    requires s.symbols != []
    ensures SymbolsOf(s) == [s.symbols[0].symbol] + SymbolsOf(Drop(s, 1))
  {
  }

  lemma CompatibleCons(x: Symbol, a: seq<Symbol>, aVariable: bool, b: seq<Symbol>, bVariable: bool)
    requires Compatible(a, aVariable, b, bVariable)
    ensures Compatible([x] + a, aVariable, [x] + b, bVariable)
  {
  }

  /** No path that unification would accept is missed: symbol stacks that unify are compatible. */
  lemma {:induction false} UnifiableIsCompatible(l: PartialSymbolStack, r: PartialSymbolStack,
                                                 head: seq<PartialScopedSymbol>,
                                                 sb: SymbolBindings, cb: ScopeBindings, depth: nat)
    requires UnifySymbols(l, r, head, sb, cb, depth).Ok?
    ensures Compatible(SymbolsOf(l), l.variable.Some?, SymbolsOf(r), r.variable.Some?)
    decreases |l.symbols|
  {
    if l.symbols != [] && r.symbols != [] {
      match UnifySymbol(l.symbols[0], r.symbols[0], cb, depth)
      case Ok(SymbolUnified(unified, after)) =>
        SymbolsOfCons(l);
        SymbolsOfCons(r);
        UnifiableIsCompatible(Drop(l, 1), Drop(r, 1), head + [unified], sb, after, depth);
        CompatibleCons(l.symbols[0].symbol, SymbolsOf(Drop(l, 1)), l.variable.Some?, SymbolsOf(Drop(r, 1)),
                       r.variable.Some?);
    } else {
      assert MatchTails(l, r).Ok?;
      assert |SymbolsOf(l)| == |l.symbols| && |SymbolsOf(r)| == |r.symbols|;
    }
  }

  /** Root paths without precondition symbols are never found, although they would unify with anything. */
  lemma EmptyPreconditionNeverFound(g: Graph, paths: seq<PartialPath>, symbols: seq<Symbol>, variable: bool, h: nat)
    requires h < |paths| && g.Kind(paths[h].startNode).Root? && paths[h].symbolPre.symbols == []
    ensures h !in RootCandidates(g, paths, symbols, variable)
  {
    if symbols != [] {
      RootCandidatesExact(g, paths, symbols, variable, h);
    }
  }
}
