/**
 A database filled lazily from storage: whatever has been asked for before, once the extensions of a path
 have been loaded, its candidates are the same paths as if everything had been loaded.
 */
module LazyLoading {
  import opened Wrappers
  import opened Graphs
  import opened Patterns
  import opened PartialPaths
  import opened SymbolStackKeys
  import opened SupplementalArenas
  import opened RootIndex
  import opened StorageKeys
  import opened KeyMatching

  datatype NodeRow = NodeRow(node: NodeHandle, path: PartialPath)

  datatype RootRow = RootRow(key: string, path: PartialPath)

  /** The tables, as the writer fills them; `like` is what the database makes of LIKE. */
  datatype Storage = Storage(
    g: Graph,
    names: Symbol -> string,
    like: (string, string) -> bool,
    nodeRows: seq<NodeRow>,
    rootRows: seq<RootRow>)
  {
    ghost predicate Valid() {
      && (forall i :: 0 <= i < |nodeRows| ==>
            nodeRows[i].path.startNode == nodeRows[i].node && !g.Kind(nodeRows[i].node).Root?)
      && (forall i :: 0 <= i < |rootRows| ==>
            g.Kind(rootRows[i].path.startNode).Root? &&
            rootRows[i].key == KeyOf(Names(rootRows[i].path.symbolPre), rootRows[i].path.symbolPre.variable.Some?))
      && (forall pattern, text :: LiteralLike(pattern, text) ==> like(pattern, text))
    }

    function Names(s: PartialSymbolStack): seq<string> {
      NamesOf(names, SymbolsOf(s))
    }

    /** All stored paths. */
    ghost predicate Stores(p: PartialPath) {
      || (exists i :: 0 <= i < |nodeRows| && nodeRows[i].path == p)
      || (exists i :: 0 <= i < |rootRows| && rootRows[i].path == p)
    }
  }

  // ---------------------------------------------------------------------------------------------
  // The patterns load every compatible path

  /** One of the patterns for the queried stack matches the key of every compatible root path. */
  lemma CompatibleMatches(s: Storage, stack: PartialSymbolStack, patterns: seq<string>, row: RootRow)
    requires s.Valid() && row in s.rootRows && stack.symbols != []
    requires Queryable(s.Names(stack)) && ArePatterns(patterns, s.Names(stack), stack.variable.Some?)
    requires IsCandidate(s.g, row.path, SymbolsOf(stack), stack.variable.Some?)
    ensures exists pattern :: pattern in patterns && s.like(pattern, row.key)
  {
    hide LiteralLike, KeyOf, PatternForPrefix, PatternForSame, PatternForLonger;
    var pre := row.path.symbolPre;
    var queried, stored := s.Names(stack), s.Names(pre);
    var variable := pre.variable.Some?;
    assert row.key == KeyOf(stored, variable);
    NamesCompatible(s.names, SymbolsOf(stack), SymbolsOf(pre));
    var pattern;
    if |queried| < |stored| {
      LongerPatternMatches(queried, stored, variable);
      pattern := patterns[|queried| + 1];
    } else if variable {
      QueryablePrefix(queried, |stored|);
      SamePatternMatches(stored, true);
      pattern := patterns[|stored| - 1];
      assert queried[..|stored| - 1 + 1] == stored;
    } else {
      SamePatternMatches(queried, false);
      pattern := patterns[|queried|];
    }
    assert pattern in patterns && LiteralLike(pattern, row.key);
  }

  lemma QueryablePrefix(strings: seq<string>, k: nat)
    requires Queryable(strings) && 0 < k <= |strings|
    ensures Queryable(strings[..k])
  {
  }

  lemma NamesCompatible(names: Symbol -> string, a: seq<Symbol>, b: seq<Symbol>)
    ensures a == b ==> NamesOf(names, a) == NamesOf(names, b)
    ensures a < b ==> NamesOf(names, a) < NamesOf(names, b)
    ensures b < a ==> NamesOf(names, b) == NamesOf(names, a)[..|b|]
  {
    if a < b {
      assert forall i :: 0 <= i < |a| ==> a[i] == b[i];
      assert NamesOf(names, a) == NamesOf(names, b)[..|a|];
    }
    if b < a {
      assert forall i :: 0 <= i < |b| ==> a[i] == b[i];
    }
  }

  /**
   Exactly when the patterns for the queried stack match the key of a compatible root path, if no name has a
   backslash or a separator.
   */
  lemma CompatibleMatchesExactly(s: Storage, stack: PartialSymbolStack, patterns: seq<string>, row: RootRow)
    requires s.Valid() && row in s.rootRows && stack.symbols != [] && AllSimple(s.Names(stack))
    requires ArePatterns(patterns, s.Names(stack), stack.variable.Some?)
    requires IsCandidate(s.g, row.path, SymbolsOf(stack), stack.variable.Some?)
    ensures (exists pattern :: pattern in patterns && LiteralLike(pattern, row.key)) <==>
            IsFound(s.Names(stack), stack.variable.Some?, s.Names(row.path.symbolPre))
  {
    hide LiteralLike, KeyOf, ArePatterns, IsFound;
    var pre := row.path.symbolPre;
    NamesCompatible(s.names, SymbolsOf(stack), SymbolsOf(pre));
    NamesCompatible(s.names, SymbolsOf(pre), SymbolsOf(stack));
    CompatibleFound(s.Names(stack), stack.variable.Some?, patterns, s.Names(pre), pre.variable.Some?);
  }

  // ---------------------------------------------------------------------------------------------
  // What is loaded

  /** The paths of the rows for a node, in order. */
  function NodePaths(rows: seq<NodeRow>, node: NodeHandle): seq<PartialPath> {
    if rows == [] then []
    else
      var last := rows[|rows| - 1];
      NodePaths(rows[..|rows| - 1], node) + if last.node == node then [last.path] else []
  }

  /** The paths of the rows whose keys are like a pattern, in order. */
  function PathsLike(rows: seq<RootRow>, like: (string, string) -> bool, pattern: string): seq<PartialPath> {
    if rows == [] then []
    else
      var last := rows[|rows| - 1];
      PathsLike(rows[..|rows| - 1], like, pattern) + if like(pattern, last.key) then [last.path] else []
  }

  /** What these patterns load, each of them once, after those that have been loaded before. */
  function NewlyLiked(s: Storage, patterns: seq<string>, loaded: set<string>): seq<PartialPath> {
    if patterns == [] then []
    else
      var front, last := patterns[..|patterns| - 1], patterns[|patterns| - 1];
      NewlyLiked(s, front, loaded) +
      if last in loaded || last in front then [] else PathsLike(s.rootRows, s.like, last)
  }

  lemma {:induction false} NodePathsAre(rows: seq<NodeRow>, node: NodeHandle, p: PartialPath)
    ensures p in NodePaths(rows, node) <==> exists i :: 0 <= i < |rows| && rows[i].node == node && rows[i].path == p
  {
    if rows != [] {
      NodePathsAre(rows[..|rows| - 1], node, p);
    }
  }

  lemma {:induction false} PathsLikeAre(rows: seq<RootRow>, like: (string, string) -> bool, pattern: string,
                                        p: PartialPath)
    ensures p in PathsLike(rows, like, pattern) <==>
            exists i :: 0 <= i < |rows| && like(pattern, rows[i].key) && rows[i].path == p
  {
    if rows != [] {
      PathsLikeAre(rows[..|rows| - 1], like, pattern, p);
    }
  }

  // ---------------------------------------------------------------------------------------------
  // The reader

  class Reader {
    const storage: Storage
    const db: Database
    var loadedNodePaths: set<NodeHandle>
    var loadedRootPaths: set<string>

    ghost predicate Valid()
      reads this, db, db.symbolStackKeys
    {
      && storage.Valid() && db.Valid(storage.g)
      && (forall p :: p in db.partialPaths ==> storage.Stores(p))
      && (forall i :: 0 <= i < |storage.nodeRows| && storage.nodeRows[i].node in loadedNodePaths ==>
            storage.nodeRows[i].path in db.partialPaths)
      && (forall pattern, i :: pattern in loadedRootPaths && 0 <= i < |storage.rootRows| &&
                               storage.like(pattern, storage.rootRows[i].key) ==>
            storage.rootRows[i].path in db.partialPaths)
    }

    constructor (s: Storage)
      requires s.Valid()
      ensures Valid() && storage == s && loadedNodePaths == {} && loadedRootPaths == {}
      ensures fresh(db) && fresh(db.symbolStackKeys)
    {
      storage := s;
      db := new Database(s.g);
      loadedNodePaths, loadedRootPaths := {}, {};
    }

    /** Loads the paths that start at a node, unless they have been loaded before. */
    method LoadPathsForNode(node: NodeHandle)
      requires Valid()
      modifies this`loadedNodePaths, db, db.symbolStackKeys
      ensures Valid() && loadedNodePaths == old(loadedNodePaths) + {node}
      ensures db.partialPaths == old(db.partialPaths) +
                                 if node in old(loadedNodePaths) then [] else NodePaths(storage.nodeRows, node)
    {
      hide Database.Valid, Storage.Valid;
      if node in loadedNodePaths {
        return;
      }
      ghost var before := db.partialPaths;
      for i := 0 to |storage.nodeRows|
        invariant Valid() && loadedNodePaths == old(loadedNodePaths)
        invariant db.partialPaths == before + NodePaths(storage.nodeRows[..i], node)
      {
        assert storage.nodeRows[..i + 1][..i] == storage.nodeRows[..i];
        if storage.nodeRows[i].node == node {
          AddRow(storage.nodeRows[i].path);
        }
      }
      assert storage.nodeRows[..|storage.nodeRows|] == storage.nodeRows;
      forall i | 0 <= i < |storage.nodeRows| && storage.nodeRows[i].node == node
        ensures storage.nodeRows[i].path in db.partialPaths
      {
        NodePathsAre(storage.nodeRows, node, storage.nodeRows[i].path);
      }
      loadedNodePaths := loadedNodePaths + {node};
    }

    /** Adds the path of a row; what has been loaded stays loaded. */
    method AddRow(path: PartialPath)
      requires Valid() && storage.Stores(path)
      modifies db, db.symbolStackKeys
      ensures Valid() && db.partialPaths == old(db.partialPaths) + [path]
    {
      hide Database.Valid, Storage.Valid, Storage.Stores;
      var handle := db.AddPartialPath(storage.g, path);
    }

    /** Loads the root paths whose keys are like one of the patterns for the stack, unless that one has been loaded. */
    method LoadPathsForRoot(stack: PartialSymbolStack) returns (patterns: seq<string>)
      requires Valid()
      modifies this`loadedRootPaths, db, db.symbolStackKeys
      ensures Valid() && ArePatterns(patterns, storage.Names(stack), stack.variable.Some?)
      ensures forall pattern :: pattern in loadedRootPaths <==> pattern in old(loadedRootPaths) || pattern in patterns
      ensures db.partialPaths == old(db.partialPaths) + NewlyLiked(storage, patterns, old(loadedRootPaths))
    {
      hide Database.Valid, Storage.Valid, Storage.Stores, ArePatterns, PathsLike;
      patterns := StorageKeyPatterns(stack, storage.names);
      ghost var before, loaded := db.partialPaths, loadedRootPaths;
      for j := 0 to |patterns|
        invariant Valid()
        invariant forall pattern :: pattern in loadedRootPaths <==> pattern in loaded || pattern in patterns[..j]
        invariant db.partialPaths == before + NewlyLiked(storage, patterns[..j], loaded)
      {
        assert patterns[..j + 1][..j] == patterns[..j] && patterns[..j + 1] == patterns[..j] + [patterns[j]];
        if patterns[j] in loadedRootPaths {
          continue;
        }
        LoadPattern(patterns[j]);
        loadedRootPaths := loadedRootPaths + {patterns[j]};
      }
      assert patterns[..|patterns|] == patterns;
    }

    method LoadPattern(pattern: string)
      requires Valid()
      modifies db, db.symbolStackKeys
      ensures Valid() && db.partialPaths == old(db.partialPaths) + PathsLike(storage.rootRows, storage.like, pattern)
      ensures forall i :: 0 <= i < |storage.rootRows| && storage.like(pattern, storage.rootRows[i].key) ==>
                storage.rootRows[i].path in db.partialPaths
    {
      hide Database.Valid, Storage.Valid;
      ghost var before := db.partialPaths;
      for i := 0 to |storage.rootRows|
        invariant Valid() && db.partialPaths == before + PathsLike(storage.rootRows[..i], storage.like, pattern)
      {
        assert storage.rootRows[..i + 1][..i] == storage.rootRows[..i];
        if storage.like(pattern, storage.rootRows[i].key) {
          AddRow(storage.rootRows[i].path);
        }
      }
      assert storage.rootRows[..|storage.rootRows|] == storage.rootRows;
      forall i | 0 <= i < |storage.rootRows| && storage.like(pattern, storage.rootRows[i].key)
        ensures storage.rootRows[i].path in db.partialPaths
      {
        PathsLikeAre(storage.rootRows, storage.like, pattern, storage.rootRows[i].path);
      }
    }

    /** Loads what may continue a path: by its end node, or by its symbol stack if it ends at the root. */
    method LoadForwardCandidates(path: PartialPath)
      requires Valid()
      modifies this, db, db.symbolStackKeys
      ensures Valid() && (Queried(path) ==> Loaded(path))
    {
      if storage.g.Kind(path.endNode).Root? {
        var patterns := LoadPathsForRoot(path.symbolPost);
        if Queried(path) {
          RootLoaded(storage, db.partialPaths, loadedRootPaths, path, patterns);
        }
      } else if !storage.g.Kind(path.endNode).JumpTo? {
        LoadPathsForNode(path.endNode);
        NodeLoaded(storage, db.partialPaths, loadedNodePaths, path);
      }
    }

    /** All stored paths that may continue the path have been loaded. */
    ghost predicate Loaded(path: PartialPath)
      reads this, db
    {
      forall p :: (p in db.partialPaths && Continues(storage.g, path, p)) <==>
        (storage.Stores(p) && Continues(storage.g, path, p))
    }

    /** The candidates are then the same paths as if everything had been loaded. */
    method GetForwardCandidates(path: PartialPath) returns (handles: seq<nat>)
      requires Valid() && Loaded(path)
      modifies db.symbolStackKeys
      ensures Valid() && forall h :: h in handles ==> h < |db.partialPaths|
      ensures forall p :: (exists h :: h in handles && h < |db.partialPaths| && db.partialPaths[h] == p) <==>
                          storage.Stores(p) && Continues(storage.g, path, p)
    {
      hide Database.Valid, Storage.Valid, Storage.Stores, Continues;
      handles := db.FindCandidates(storage.g, path);
      forall p
        ensures (exists h :: h in handles && h < |db.partialPaths| && db.partialPaths[h] == p) <==>
                storage.Stores(p) && Continues(storage.g, path, p)
      {
        CandidatesContinue(storage.g, db.partialPaths, path, p);
      }
      CandidatesContinue(storage.g, db.partialPaths, path, path);
    }

    /** The path ends at a node of a file, or at the root with a stack of symbols that can be queried. */
    ghost predicate Queried(path: PartialPath) {
      if storage.g.Kind(path.endNode).Root? then Queryable(storage.Names(path.symbolPost))
      else !storage.g.Kind(path.endNode).JumpTo?
    }
  }

  lemma RootLoaded(s: Storage, paths: seq<PartialPath>, loaded: set<string>, path: PartialPath, patterns: seq<string>)
    requires s.Valid() && s.g.Kind(path.endNode).Root?
    requires Queryable(s.Names(path.symbolPost))
    requires forall p :: p in paths ==> s.Stores(p)
    requires forall pattern, i :: pattern in loaded && 0 <= i < |s.rootRows| && s.like(pattern, s.rootRows[i].key) ==>
               s.rootRows[i].path in paths
    requires ArePatterns(patterns, s.Names(path.symbolPost), path.symbolPost.variable.Some?)
    requires forall pattern :: pattern in patterns ==> pattern in loaded
    ensures forall p :: (p in paths && Continues(s.g, path, p)) <==> (s.Stores(p) && Continues(s.g, path, p))
  {
    hide ArePatterns, Queryable, IsCandidate, KeyOf;
    forall p | s.Stores(p) && Continues(s.g, path, p)
      ensures p in paths
    {
      StoredRootRow(s, path, p);
      var i :| 0 <= i < |s.rootRows| && s.rootRows[i].path == p;
      CompatibleMatches(s, path.symbolPost, patterns, s.rootRows[i]);
      var pattern :| pattern in patterns && s.like(pattern, s.rootRows[i].key);
    }
  }

  lemma StoredRootRow(s: Storage, path: PartialPath, p: PartialPath)
    requires s.Valid() && s.g.Kind(path.endNode).Root? && s.Stores(p) && Continues(s.g, path, p)
    ensures exists i :: 0 <= i < |s.rootRows| && s.rootRows[i].path == p
  {
  }

  lemma NodeLoaded(s: Storage, paths: seq<PartialPath>, loaded: set<NodeHandle>, path: PartialPath)
    requires s.Valid() && !s.g.Kind(path.endNode).Root? && path.endNode in loaded
    requires forall p :: p in paths ==> s.Stores(p)
    requires forall i :: 0 <= i < |s.nodeRows| && s.nodeRows[i].node in loaded ==> s.nodeRows[i].path in paths
    ensures forall p :: (p in paths && Continues(s.g, path, p)) <==> (s.Stores(p) && Continues(s.g, path, p))
  {
  }
}
