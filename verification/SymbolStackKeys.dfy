/**
 Hash-consed symbol stack keys: lists of symbols, last symbol first, whose cells are shared through a
 cache, so that two keys have the same handle exactly when they hold the same symbols.
 */
module SymbolStackKeys {
  import opened Wrappers
  import opened Graphs
  import opened Deques

  datatype KeyCell = KeyCell(head: Symbol, tail: List)

  predicate KeysLinked(keys: seq<KeyCell>) {
    forall i :: 0 <= i < |keys| && keys[i].tail.At? ==> keys[i].tail.index < i
  }

  predicate IsKey(keys: seq<KeyCell>, k: List) {
    k.At? ==> k.index < |keys|
  }

  /** The symbols of a key, in the order of the symbol stack. */
  function Symbols(keys: seq<KeyCell>, k: List): seq<Symbol>
    requires KeysLinked(keys) && IsKey(keys, k)
    decreases if k.At? then k.index + 1 else 0
  {
    match k
    case Empty => []
    case At(i) => Symbols(keys, keys[i].tail) + [keys[i].head]
  }

  /** Every cell is in the cache, under what it holds, and nothing else is. */
  ghost predicate Consed(keys: seq<KeyCell>, cache: map<KeyCell, nat>) {
    && KeysLinked(keys)
    && (forall i :: 0 <= i < |keys| ==> keys[i] in cache && cache[keys[i]] == i)
    && (forall cell :: cell in cache ==> cache[cell] < |keys| && keys[cache[cell]] == cell)
  }

  lemma {:induction false} SymbolsLength(keys: seq<KeyCell>, k: List)
    requires KeysLinked(keys) && IsKey(keys, k)
    ensures Symbols(keys, k) == [] <==> k == Empty
  {
  }

  /** Keys share a handle exactly when their symbols are the same. */
  lemma {:induction false} SameSymbolsSameKey(keys: seq<KeyCell>, cache: map<KeyCell, nat>, a: List, b: List)
    requires Consed(keys, cache) && IsKey(keys, a) && IsKey(keys, b)
    ensures a == b <==> Symbols(keys, a) == Symbols(keys, b)
    decreases if a.At? then a.index + 1 else 0
  {
    if a.At? && b.At? && Symbols(keys, a) == Symbols(keys, b) {
      var x, y := keys[a.index], keys[b.index];
      SnocInjective(Symbols(keys, x.tail), x.head, Symbols(keys, y.tail), y.head);
      SameSymbolsSameKey(keys, cache, x.tail, y.tail);
    }
  }

  lemma SnocInjective(a: seq<Symbol>, x: Symbol, b: seq<Symbol>, y: Symbol)
    requires a + [x] == b + [y]
    ensures a == b && x == y
  {
    assert (a + [x])[|a + [x]| - 1] == x && (b + [y])[|b + [y]| - 1] == y;
    assert (a + [x])[..|a|] == a && (b + [y])[..|b|] == b;
  }

  lemma {:induction false} SymbolsKept(after: seq<KeyCell>, keys: seq<KeyCell>, k: List)
    requires KeysLinked(keys) && KeysLinked(after) && keys <= after && IsKey(keys, k)
    ensures Symbols(after, k) == Symbols(keys, k)
    decreases if k.At? then k.index + 1 else 0
  {
    if k.At? {
      SymbolsKept(after, keys, keys[k.index].tail);
    }
  }

  ghost predicate HasKey(keys: seq<KeyCell>, symbols: seq<Symbol>)
    requires KeysLinked(keys)
  {
    exists k :: IsKey(keys, k) && Symbols(keys, k) == symbols
  }

  /** The keys from the `start`th on hold prefixes of these symbols. */
  ghost predicate NewKeysWithin(keys: seq<KeyCell>, start: nat, symbols: seq<Symbol>)
    requires KeysLinked(keys)
  {
    forall i :: start <= i < |keys| ==> Symbols(keys, At(i)) <= symbols
  }

  lemma NewKeyWithin(after: seq<KeyCell>, keys: seq<KeyCell>, start: nat, r: List, symbols: seq<Symbol>)
    requires KeysLinked(keys) && KeysLinked(after) && keys <= after && |after| <= |keys| + 1
    requires NewKeysWithin(keys, start, symbols)
    requires |after| > |keys| ==> r == At(|keys|)
    requires IsKey(after, r) && Symbols(after, r) <= symbols
    ensures NewKeysWithin(after, start, symbols)
  {
    forall i | start <= i < |after|
      ensures Symbols(after, At(i)) <= symbols
    {
      if i < |keys| {
        SymbolsKept(after, keys, At(i));
      }
    }
  }

  class KeyArena {
    var keys: seq<KeyCell>
    var cache: map<KeyCell, nat>

    ghost predicate Valid()
      reads this
    {
      Consed(keys, cache)
    }

    constructor ()
      ensures Valid() && keys == []
    {
      keys, cache := [], map[];
    }

    /** The key with one more symbol; its cell is reused if there is one. */
    method PushBack(k: List, symbol: Symbol) returns (r: List)
      requires Valid() && IsKey(keys, k)
      modifies this
      ensures Valid() && old(keys) <= keys && r.At? && IsKey(keys, r)
      ensures Symbols(keys, r) == old(Symbols(keys, k)) + [symbol]
      ensures old(HasKey(keys, Symbols(keys, k) + [symbol])) <==> keys == old(keys)
      ensures |keys| <= |old(keys)| + 1 && (|keys| > |old(keys)| ==> r == At(|old(keys)|))
    {
      var cell := KeyCell(symbol, k);
      if cell in cache {
        r := At(cache[cell]);
        assert IsKey(keys, r) && Symbols(keys, r) == Symbols(keys, k) + [symbol];
        return;
      }
      ghost var before, cacheBefore := keys, cache;
      keys := keys + [cell];
      r := At(|keys| - 1);
      cache := cache[cell := |keys| - 1];
      SymbolsKept(keys, before, k);
      forall other | IsKey(before, other)
        ensures Symbols(before, other) != Symbols(before, k) + [symbol]
      {
        if Symbols(before, other) == Symbols(before, k) + [symbol] {
          SymbolsLength(before, other);
          var last := before[other.index];
          SnocInjective(Symbols(before, last.tail), last.head, Symbols(before, k), symbol);
          SameSymbolsSameKey(before, cacheBefore, last.tail, k);
        }
      }
    }

    /** The key without its last symbol. */
    function PopBack(k: List): List
      requires Valid() && IsKey(keys, k)
      reads this
      ensures IsKey(keys, PopBack(k))
    {
      if k.At? then keys[k.index].tail else Empty
    }

    /** The key of a symbol stack.  All new keys hold prefixes of it. */
    method FromSymbols(symbols: seq<Symbol>) returns (k: List)
      requires Valid()
      modifies this
      ensures Valid() && old(keys) <= keys && IsKey(keys, k) && Symbols(keys, k) == symbols
      ensures NewKeysWithin(keys, |old(keys)|, symbols)
    {
      hide Symbols, HasKey, NewKeysWithin;
      k := Empty;
      ghost var before := keys;
      var rest := symbols;
      ghost var done: seq<Symbol> := [];
      NoNewKeys(keys, symbols);
      while rest != []
        invariant Valid() && before <= keys && IsKey(keys, k)
        invariant done + rest == symbols && Symbols(keys, k) == done
        invariant NewKeysWithin(keys, |before|, symbols)
        decreases |rest|
      {
        ghost var middle := keys;
        k := PushBack(k, rest[0]);
        done := done + [rest[0]];
        rest := rest[1..];
        NewKeyWithin(keys, middle, |before|, k, symbols);
      }
      assert done == symbols;
    }
  }

  lemma NoNewKeys(keys: seq<KeyCell>, symbols: seq<Symbol>)
    requires KeysLinked(keys)
    ensures Symbols(keys, Empty) == [] && NewKeysWithin(keys, |keys|, symbols)
  {
  }
}
