/**
 Arena-allocated reversible lists and the deques built on them.  Cells are only ever added, and a cell's
 cached reversal is only ever filled in, so every list and every copy of a deque keeps its elements.
 */
module Deques {
  import opened Wrappers

  /** A list: empty, or what starts with the cell at `index`. */
  datatype List = Empty | At(index: nat)

  datatype Cell<+T> = Cell(head: T, tail: List, reversed: Option<List>)

  /** Tails lead to earlier cells, so following them comes to an end. */
  predicate Linked<T>(cells: seq<Cell<T>>) {
    forall i :: 0 <= i < |cells| && cells[i].tail.At? ==> cells[i].tail.index < i
  }

  predicate InArena<T>(cells: seq<Cell<T>>, l: List) {
    l.At? ==> l.index < |cells|
  }

  function Content<T>(cells: seq<Cell<T>>, l: List): seq<T>
    requires Linked(cells) && InArena(cells, l)
    decreases if l.At? then l.index + 1 else 0
  {
    match l
    case Empty => []
    case At(i) => [cells[i].head] + Content(cells, cells[i].tail)
  }

  function Reverse<T>(s: seq<T>): (r: seq<T>)
    ensures |r| == |s|
  {
    if s == [] then [] else Reverse(s[1..]) + [s[0]]
  }

  /** A cached reversal is a true reversal, and the two lists are each other's. */
  ghost predicate Cached<T>(cells: seq<Cell<T>>)
    requires Linked(cells)
  {
    forall i :: 0 <= i < |cells| && cells[i].reversed.Some? ==> IsReversal(cells, i, cells[i].reversed.value)
  }

  ghost predicate IsReversal<T>(cells: seq<Cell<T>>, i: nat, r: List)
    requires Linked(cells) && i < |cells|
  {
    && r.At? && r.index < |cells| && cells[r.index].reversed == Some(At(i))
    && Content(cells, r) == Reverse(Content(cells, At(i)))
  }

  ghost predicate ValidCells<T>(cells: seq<Cell<T>>) {
    Linked(cells) && Cached(cells)
  }

  /** Later cells: nothing is changed but that cells are added and reversals filled in. */
  predicate Extends<T(==)>(after: seq<Cell<T>>, before: seq<Cell<T>>) {
    && |before| <= |after|
    && forall i :: 0 <= i < |before| ==>
         && after[i].head == before[i].head && after[i].tail == before[i].tail
         && (before[i].reversed.Some? ==> after[i].reversed == before[i].reversed)
  }

  /** Persistence: every list keeps its content. */
  lemma {:induction false} ContentKept<T>(after: seq<Cell<T>>, before: seq<Cell<T>>, l: List)
    requires Linked(before) && Linked(after) && Extends(after, before) && InArena(before, l)
    ensures Content(after, l) == Content(before, l)
    decreases if l.At? then l.index + 1 else 0
  {
    if l.At? {
      ContentKept(after, before, before[l.index].tail);
    }
  }

  lemma ExtendsTransitive<T>(a: seq<Cell<T>>, b: seq<Cell<T>>, c: seq<Cell<T>>)
    requires Extends(b, a) && Extends(c, b)
    ensures Extends(c, a)
  {
  }

  lemma {:induction false} ReverseConcat<T>(a: seq<T>, b: seq<T>)
    ensures Reverse(a + b) == Reverse(b) + Reverse(a)
  {
    if a == [] {
      assert a + b == b;
    } else {
      assert (a + b)[1..] == a[1..] + b;
      ReverseConcat(a[1..], b);
    }
  }

  lemma {:induction false} ReverseReverse<T>(s: seq<T>)
    ensures Reverse(Reverse(s)) == s
  {
    if s != [] {
      ReverseConcat(Reverse(s[1..]), [s[0]]);
      ReverseReverse(s[1..]);
    }
  }

  /** A new cell in front of a list, without a cached reversal. */
  lemma PushedCell<T>(cells: seq<Cell<T>>, head: T, tail: List)
    requires ValidCells(cells) && InArena(cells, tail)
    ensures var after := cells + [Cell(head, tail, None)];
            && ValidCells(after) && Extends(after, cells)
            && Content(after, At(|cells|)) == [head] + Content(cells, tail)
  {
    var after := cells + [Cell(head, tail, None)];
    ContentKept(after, cells, tail);
    forall i | 0 <= i < |after| && after[i].reversed.Some?
      ensures IsReversal(after, i, after[i].reversed.value)
    {
      assert IsReversal(cells, i, cells[i].reversed.value);
      ContentKept(after, cells, At(i));
      ContentKept(after, cells, cells[i].reversed.value);
    }
  }

  // ---------------------------------------------------------------------------------------------
  // Reversing

  /** Part way through: the elements `done` have been copied, in reverse, and the rest starts at `current`. */
  ghost predicate Reversing<T>(before: seq<Cell<T>>, cells: seq<Cell<T>>, forwards: List, current: List, reversed: List,
                               done: seq<T>)
  {
    && Linked(before) && Linked(cells) && before <= cells
    && InArena(before, forwards) && InArena(before, current) && InArena(cells, reversed)
    && done + Content(before, current) == Content(before, forwards)
    && Content(cells, reversed) == Reverse(done)
    && (forall i :: |before| <= i < |cells| && !(current == Empty && reversed == At(i)) ==> cells[i].reversed.None?)
    && (current == Empty ==>
          reversed.At? && |before| <= reversed.index && cells[reversed.index].reversed == Some(forwards))
  }

  /** The copy of the last element knows its own reversal: the list that we started with. */
  function CopiedCell<T>(cell: Cell<T>, forwards: List, reversed: List): Cell<T> {
    Cell(cell.head, reversed, if cell.tail == Empty then Some(forwards) else None)
  }

  lemma ReversingStep<T>(before: seq<Cell<T>>, cells: seq<Cell<T>>, forwards: List, current: List, reversed: List,
                         done: seq<T>)
    requires Reversing(before, cells, forwards, current, reversed, done) && current.At?
    ensures var cell := cells[current.index];
            && cell == before[current.index]
            && Reversing(before, cells + [CopiedCell(cell, forwards, reversed)], forwards, cell.tail, At(|cells|),
                         done + [cell.head])
  {
    var cell := cells[current.index];
    var after := cells + [CopiedCell(cell, forwards, reversed)];
    ContentKept(after, cells, reversed);
    ReverseConcat(done, [cell.head]);
    assert Reverse([cell.head]) == [cell.head];
    var rest := Content(before, cell.tail);
    assert (done + [cell.head]) + rest == done + ([cell.head] + rest);
  }

  class DequeArena<T(!new)> {
    var cells: seq<Cell<T>>

    ghost predicate Valid()
      reads this
    {
      ValidCells(cells)
    }

    constructor ()
      ensures Valid() && cells == []
    {
      cells := [];
    }

    /** Copies the elements of a non-empty list to new cells, in reverse. */
    method ReverseCells(forwards: List) returns (reversed: List)
      requires Valid() && forwards.At? && InArena(cells, forwards)
      modifies this
      ensures Reversing(old(cells), cells, forwards, Empty, reversed, old(Content(cells, forwards)))
    {
      hide Content, Reverse;
      reversed := Empty;
      var current := forwards;
      ghost var before := cells;
      ghost var done: seq<T> := [];
      ReversingStarts(cells, forwards);
      while current != Empty
        invariant Reversing(before, cells, forwards, current, reversed, done)
        decreases if current.At? then current.index + 1 else 0
      {
        var cell := cells[current.index];
        ReversingStep(before, cells, forwards, current, reversed, done);
        current := cell.tail;
        reversed, cells := At(|cells|), cells + [CopiedCell(cell, forwards, reversed)];
        done := done + [cell.head];
      }
      ReversingEnds(before, cells, forwards, reversed, done);
    }

    function HasReversal(list: List): bool
      requires InArena(cells, list)
      reads this
    {
      list == Empty || cells[list.index].reversed.Some?
    }

    /** Computes and caches the reversal of a list, unless it is known already. */
    method EnsureReversalAvailable(list: List)
      requires Valid() && InArena(cells, list)
      modifies this
      ensures Valid() && Extends(cells, old(cells)) && HasReversal(list)
      ensures old(HasReversal(list)) ==> cells == old(cells)
    {
      if list == Empty || cells[list.index].reversed.Some? {
        return;
      }
      var reversed := ReverseCells(list);
      ReversalCached(old(cells), cells, list.index, reversed);
      cells := cells[list.index := cells[list.index].(reversed := Some(reversed))];
    }

    /** Reversing a list: no cells are added if its reversal is known. */
    method ReverseList(list: List) returns (r: List)
      requires Valid() && InArena(cells, list)
      modifies this
      ensures Valid() && Extends(cells, old(cells)) && InArena(cells, r)
      ensures Content(cells, r) == Reverse(old(Content(cells, list)))
      ensures old(HasReversal(list)) ==> cells == old(cells)
      ensures r == ReversalOf(cells, list) && ReversalOf(cells, r) == list && HasReversal(r)
    {
      if list == Empty {
        return list;
      }
      EnsureReversalAvailable(list);
      ContentKept(cells, old(cells), list);
      r := cells[list.index].reversed.value;
      assert IsReversal(cells, list.index, r);
    }

    // -------------------------------------------------------------------------------------------
    // Deques

    /** The deque's list is in the arena. */
    ghost predicate Holds(d: Deque)
      reads this
    {
      Valid() && InArena(cells, d.list)
    }

    ghost function Elements(d: Deque): seq<T>
      requires Holds(d)
      reads this
    {
      ElementsIn(cells, d)
    }

    method EnsureBackwards(d: Deque) returns (r: Deque)
      requires Holds(d)
      modifies this
      ensures Holds(r) && Extends(cells, old(cells))
      ensures r.direction == Backwards && Elements(r) == old(Elements(d))
    {
      if d.direction == Backwards {
        return d;
      }
      var list := ReverseList(d.list);
      r := Deque(list, Backwards);
      ReverseReverse(old(Content(cells, d.list)));
    }

    method EnsureForwards(d: Deque) returns (r: Deque)
      requires Holds(d)
      modifies this
      ensures Holds(r) && Extends(cells, old(cells))
      ensures r.direction == Forwards && Elements(r) == old(Elements(d))
    {
      if d.direction == Forwards {
        return d;
      }
      var list := ReverseList(d.list);
      r := Deque(list, Forwards);
    }

    method PushFront(d: Deque, x: T) returns (r: Deque)
      requires Holds(d)
      modifies this
      ensures Holds(r) && Extends(cells, old(cells))
      ensures Elements(r) == [x] + old(Elements(d))
    {
      var forwards := EnsureForwards(d);
      PushedCell(cells, x, forwards.list);
      ExtendsTransitive(old(cells), cells, cells + [Cell(x, forwards.list, None)]);
      cells := cells + [Cell(x, forwards.list, None)];
      r := forwards.(list := At(|cells| - 1));
    }

    method PushBack(d: Deque, x: T) returns (r: Deque)
      requires Holds(d)
      modifies this
      ensures Holds(r) && Extends(cells, old(cells))
      ensures Elements(r) == old(Elements(d)) + [x]
    {
      var backwards := EnsureBackwards(d);
      PushedCell(cells, x, backwards.list);
      ExtendsTransitive(old(cells), cells, cells + [Cell(x, backwards.list, None)]);
      ReverseConcat([x], Content(cells, backwards.list));
      assert Reverse([x]) == [x];
      cells := cells + [Cell(x, backwards.list, None)];
      r := backwards.(list := At(|cells| - 1));
    }

    method PopFront(d: Deque) returns (r: Deque, front: Option<T>)
      requires Holds(d)
      modifies this
      ensures Holds(r) && Extends(cells, old(cells))
      ensures if old(Elements(d)) == [] then front.None? && Elements(r) == []
              else front.Some? && [front.value] + Elements(r) == old(Elements(d))
    {
      var forwards := EnsureForwards(d);
      if forwards.list == Empty {
        return forwards, None;
      }
      var cell := cells[forwards.list.index];
      return forwards.(list := cell.tail), Some(cell.head);
    }

    method PopBack(d: Deque) returns (r: Deque, back: Option<T>)
      requires Holds(d)
      modifies this
      ensures Holds(r) && Extends(cells, old(cells))
      ensures if old(Elements(d)) == [] then back.None? && Elements(r) == []
              else back.Some? && Elements(r) + [back.value] == old(Elements(d))
    {
      var backwards := EnsureBackwards(d);
      if backwards.list == Empty {
        return backwards, None;
      }
      var cell := cells[backwards.list.index];
      ReverseConcat([cell.head], Content(cells, cell.tail));
      assert Reverse([cell.head]) == [cell.head];
      return backwards.(list := cell.tail), Some(cell.head);
    }

    /** Turns one of two deques around, the first one if its reversal is known. */
    method EnsureSameDirection(a: Deque, b: Deque) returns (x: Deque, y: Deque)
      requires Holds(a) && Holds(b)
      modifies this
      ensures Holds(x) && Holds(y) && Extends(cells, old(cells)) && x.direction == y.direction
      ensures Elements(x) == old(Elements(a)) && Elements(y) == old(Elements(b))
    {
      x, y := a, b;
      if a.direction == b.direction {
        return;
      }
      if HasReversal(a.list) {
        var list := ReverseList(a.list);
        x := Deque(list, Opposite(a.direction));
        ReverseReverse(old(Content(cells, a.list)));
      } else {
        var list := ReverseList(b.list);
        y := Deque(list, Opposite(b.direction));
        ReverseReverse(old(Content(cells, b.list)));
        ContentKept(cells, old(cells), a.list);
      }
    }

    /** Compares two lists element by element, and stops early where both go on with the same cell. */
    method ListEqualsWith(a: List, b: List, eq: (T, T) -> bool) returns (r: bool)
      requires Valid() && InArena(cells, a) && InArena(cells, b)
      ensures r <==> SharedOrEqual(cells, a, b, eq)
    {
      var x, y := a, b;
      while x != y
        invariant InArena(cells, x) && InArena(cells, y)
        invariant SharedOrEqual(cells, a, b, eq) <==> SharedOrEqual(cells, x, y, eq)
        decreases if x.At? then x.index + 1 else 0
      {
        if x == Empty || y == Empty {
          return false;
        }
        var mine, theirs := cells[x.index], cells[y.index];
        x, y := mine.tail, theirs.tail;
        if !eq(mine.head, theirs.head) {
          return false;
        }
      }
      return true;
    }

    /** Equality of deques: for a reflexive callback, the elements are pairwise equal. */
    method EqualsWith(a: Deque, b: Deque, eq: (T, T) -> bool) returns (r: bool)
      requires Holds(a) && Holds(b) && Reflexive(eq)
      modifies this
      ensures Valid() && Extends(cells, old(cells))
      ensures r <==> AllEqual(old(Elements(a)), old(Elements(b)), eq)
    {
      var x, y := EnsureSameDirection(a, b);
      r := ListEqualsWith(x.list, y.list, eq);
      SharingIsEqual(cells, x.list, y.list, eq);
      if x.direction == Backwards {
        AllEqualReversed(Content(cells, x.list), Content(cells, y.list), eq);
      }
    }

    method ListCompareWith(a: List, b: List, cmp: (T, T) -> Ordering) returns (r: Ordering)
      requires Valid() && InArena(cells, a) && InArena(cells, b)
      ensures r == SharedOrCompared(cells, a, b, cmp)
    {
      var x, y := a, b;
      while x != y
        invariant InArena(cells, x) && InArena(cells, y)
        invariant SharedOrCompared(cells, a, b, cmp) == SharedOrCompared(cells, x, y, cmp)
        decreases if x.At? then x.index + 1 else 0
      {
        if x == Empty {
          return Less;
        }
        if y == Empty {
          return Greater;
        }
        var mine, theirs := cells[x.index], cells[y.index];
        x, y := mine.tail, theirs.tail;
        var order := cmp(mine.head, theirs.head);
        if order != Equal {
          return order;
        }
      }
      return Equal;
    }

    /** Comparison of deques: for a callback that finds every element equal to itself, the lexicographic order. */
    method CompareWith(a: Deque, b: Deque, cmp: (T, T) -> Ordering) returns (r: Ordering)
      requires Holds(a) && Holds(b) && SelfEqual(cmp)
      modifies this
      ensures Valid() && Extends(cells, old(cells))
      ensures r == Lexicographic(old(Elements(a)), old(Elements(b)), cmp)
    {
      var x := EnsureForwards(a);
      ContentKept(cells, old(cells), b.list);
      ghost var middle := cells;
      var y := EnsureForwards(b);
      ContentKept(cells, middle, x.list);
      ExtendsTransitive(old(cells), middle, cells);
      r := ListCompareWith(x.list, y.list, cmp);
      SharingIsCompared(cells, x.list, y.list, cmp);
    }
  }

  lemma ReversingStarts<T>(cells: seq<Cell<T>>, forwards: List)
    requires Linked(cells) && InArena(cells, forwards) && forwards.At?
    ensures Reversing(cells, cells, forwards, forwards, Empty, [])
  {
    assert [] + Content(cells, forwards) == Content(cells, forwards);
  }

  lemma ReversingEnds<T>(before: seq<Cell<T>>, cells: seq<Cell<T>>, forwards: List, reversed: List, done: seq<T>)
    requires Reversing(before, cells, forwards, Empty, reversed, done)
    ensures done == Content(before, forwards)
  {
    assert done + [] == done;
  }

  /** What a known reversal is. */
  function ReversalOf<T>(cells: seq<Cell<T>>, list: List): List
    requires InArena(cells, list)
  {
    if list.At? && cells[list.index].reversed.Some? then cells[list.index].reversed.value else list
  }

  /** Filling in the reversal of a list that has just been reversed. */
  lemma ReversalCached<T>(before: seq<Cell<T>>, cells: seq<Cell<T>>, i: nat, reversed: List)
    requires ValidCells(before) && i < |before| && before[i].reversed.None?
    requires Reversing(before, cells, At(i), Empty, reversed, Content(before, At(i)))
    ensures var after := cells[i := cells[i].(reversed := Some(reversed))];
            ValidCells(after) && Extends(after, before)
  {
    var after := cells[i := cells[i].(reversed := Some(reversed))];
    assert Extends(after, cells) && Extends(after, before);
    ContentKept(after, before, At(i));
    ContentKept(after, cells, reversed);
    ReverseReverse(Content(before, At(i)));
    forall k | 0 <= k < |after| && after[k].reversed.Some?
      ensures IsReversal(after, k, after[k].reversed.value)
    {
      if k < |before| && k != i {
        var r := before[k].reversed.value;
        assert IsReversal(before, k, r);
        ContentKept(after, before, At(k));
        ContentKept(after, before, r);
      }
    }
  }

  /** A cached reversal leads back to the list that it is the reversal of: reversing twice is free. */
  lemma ReversalMutual<T>(cells: seq<Cell<T>>, list: List)
    requires ValidCells(cells) && list.At? && InArena(cells, list) && cells[list.index].reversed.Some?
    ensures var r := ReversalOf(cells, list);
            && r.At? && InArena(cells, r) && cells[r.index].reversed.Some? && ReversalOf(cells, r) == list
            && Content(cells, r) == Reverse(Content(cells, list))
  {
    assert IsReversal(cells, list.index, ReversalOf(cells, list));
  }

  // ---------------------------------------------------------------------------------------------
  // Deques and comparisons

  datatype Direction = Forwards | Backwards

  function Opposite(d: Direction): Direction {
    if d == Forwards then Backwards else Forwards
  }

  /** A deque keeps its elements in a list, from front to back or from back to front. */
  datatype Deque = Deque(list: List, direction: Direction)

  const EMPTY_DEQUE := Deque(Empty, Forwards)

  function ElementsIn<T>(cells: seq<Cell<T>>, d: Deque): seq<T>
    requires Linked(cells) && InArena(cells, d.list)
  {
    if d.direction == Forwards then Content(cells, d.list) else Reverse(Content(cells, d.list))
  }

  /** Whatever is done to an arena, every older copy of a deque keeps its elements. */
  lemma ElementsKept<T>(after: seq<Cell<T>>, before: seq<Cell<T>>, d: Deque)
    requires Linked(before) && Linked(after) && Extends(after, before) && InArena(before, d.list)
    ensures ElementsIn(after, d) == ElementsIn(before, d)
  {
    ContentKept(after, before, d.list);
  }

  datatype Ordering = Less | Equal | Greater

  ghost predicate Reflexive<T(!new)>(eq: (T, T) -> bool) {
    forall x :: eq(x, x)
  }

  predicate AllEqual<T>(a: seq<T>, b: seq<T>, eq: (T, T) -> bool) {
    |a| == |b| && forall i :: 0 <= i < |a| ==> eq(a[i], b[i])
  }

  /** What the comparison of lists finds: pairwise equal elements up to a cell that both share, or the end. */
  predicate SharedOrEqual<T>(cells: seq<Cell<T>>, a: List, b: List, eq: (T, T) -> bool)
    requires Linked(cells) && InArena(cells, a) && InArena(cells, b)
    decreases if a.At? then a.index + 1 else 0
  {
    a == b || (a.At? && b.At? && eq(cells[a.index].head, cells[b.index].head) &&
               SharedOrEqual(cells, cells[a.index].tail, cells[b.index].tail, eq))
  }

  lemma {:induction false} SharingIsEqual<T(!new)>(cells: seq<Cell<T>>, a: List, b: List, eq: (T, T) -> bool)
    requires Linked(cells) && InArena(cells, a) && InArena(cells, b) && Reflexive(eq)
    ensures SharedOrEqual(cells, a, b, eq) <==> AllEqual(Content(cells, a), Content(cells, b), eq)
    decreases if a.At? then a.index + 1 else 0
  {
    if a.At? && b.At? && a != b {
      var x, y := Content(cells, cells[a.index].tail), Content(cells, cells[b.index].tail);
      SharingIsEqual(cells, cells[a.index].tail, cells[b.index].tail, eq);
      AllEqualCons(cells[a.index].head, x, cells[b.index].head, y, eq);
    }
  }

  lemma AllEqualCons<T>(x: T, a: seq<T>, y: T, b: seq<T>, eq: (T, T) -> bool)
    ensures AllEqual([x] + a, [y] + b, eq) <==> eq(x, y) && AllEqual(a, b, eq)
  {
    if AllEqual([x] + a, [y] + b, eq) {
      assert eq(([x] + a)[0], ([y] + b)[0]);
      forall i | 0 <= i < |a|
        ensures eq(a[i], b[i])
      {
        assert eq(([x] + a)[i + 1], ([y] + b)[i + 1]);
      }
    }
  }

  /** For a callback that does not find an element equal to itself, sharing cells makes the difference. */
  lemma SharingMatters<T>(cells: seq<Cell<T>>, i: nat, j: nat, eq: (T, T) -> bool)
    requires Linked(cells) && i < |cells| && j < |cells| && i != j && cells[i].head == cells[j].head
    requires !eq(cells[i].head, cells[i].head)
    ensures SharedOrEqual(cells, At(i), At(i), eq) && !SharedOrEqual(cells, At(i), At(j), eq)
  {
  }

  lemma {:induction false} ReverseAt<T>(s: seq<T>, k: nat)
    requires k < |s|
    ensures Reverse(s)[k] == s[|s| - 1 - k]
  {
    if k < |s| - 1 {
      ReverseAt(s[1..], k);
    }
  }

  lemma AllEqualReversed<T>(a: seq<T>, b: seq<T>, eq: (T, T) -> bool)
    ensures AllEqual(Reverse(a), Reverse(b), eq) <==> AllEqual(a, b, eq)
  {
    if AllEqual(a, b, eq) {
      AllEqualInReverse(a, b, eq);
    }
    if AllEqual(Reverse(a), Reverse(b), eq) {
      AllEqualInReverse(Reverse(a), Reverse(b), eq);
      ReverseReverse(a);
      ReverseReverse(b);
    }
  }

  lemma AllEqualInReverse<T>(a: seq<T>, b: seq<T>, eq: (T, T) -> bool)
    requires AllEqual(a, b, eq)
    ensures AllEqual(Reverse(a), Reverse(b), eq)
  {
    forall i | 0 <= i < |a|
      ensures eq(Reverse(a)[i], Reverse(b)[i])
    {
      ReverseAt(a, i);
      ReverseAt(b, i);
    }
  }

  ghost predicate SelfEqual<T(!new)>(cmp: (T, T) -> Ordering) {
    forall x :: cmp(x, x) == Equal
  }

  function Lexicographic<T>(a: seq<T>, b: seq<T>, cmp: (T, T) -> Ordering): Ordering {
    if a == [] then if b == [] then Equal else Less
    else if b == [] then Greater
    else
      var order := cmp(a[0], b[0]);
      if order != Equal then order else Lexicographic(a[1..], b[1..], cmp)
  }

  function SharedOrCompared<T>(cells: seq<Cell<T>>, a: List, b: List, cmp: (T, T) -> Ordering): Ordering
    requires Linked(cells) && InArena(cells, a) && InArena(cells, b)
    decreases if a.At? then a.index + 1 else 0
  {
    if a == b then Equal
    else if a == Empty then Less
    else if b == Empty then Greater
    else
      var order := cmp(cells[a.index].head, cells[b.index].head);
      if order != Equal then order else SharedOrCompared(cells, cells[a.index].tail, cells[b.index].tail, cmp)
  }

  lemma {:induction false} SharingIsCompared<T(!new)>(cells: seq<Cell<T>>, a: List, b: List, cmp: (T, T) -> Ordering)
    requires Linked(cells) && InArena(cells, a) && InArena(cells, b) && SelfEqual(cmp)
    ensures SharedOrCompared(cells, a, b, cmp) == Lexicographic(Content(cells, a), Content(cells, b), cmp)
    decreases if a.At? then a.index + 1 else 0
  {
    if a == b {
      SameIsEqual(Content(cells, a), cmp);
    } else if a.At? && b.At? {
      SharingIsCompared(cells, cells[a.index].tail, cells[b.index].tail, cmp);
      assert Content(cells, a)[1..] == Content(cells, cells[a.index].tail);
      assert Content(cells, b)[1..] == Content(cells, cells[b.index].tail);
    }
  }

  lemma {:induction false} SameIsEqual<T(!new)>(s: seq<T>, cmp: (T, T) -> Ordering)
    requires SelfEqual(cmp)
    ensures Lexicographic(s, s, cmp) == Equal
  {
    if s != [] {
      SameIsEqual(s[1..], cmp);
    }
  }
}
