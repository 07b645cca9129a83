/** Supplemental arenas: vectors indexed by handles, which grow with default values as handles are used. */
module SupplementalArenas {
  import opened Wrappers

  /** What reading gives: nothing beyond the end. */
  function Get<T>(items: seq<T>, handle: nat): Option<T> {
    if handle < |items| then Some(items[handle]) else None
  }

  /** The item, or the default value where there is none yet. */
  function Lookup<T>(items: seq<T>, handle: nat, default: T): T {
    if handle < |items| then items[handle] else default
  }

  /** Indexing for an update makes room for the item first. */
  function Updated<T>(items: seq<T>, handle: nat, item: T, default: T): (r: seq<T>)
    ensures handle < |r| && |r| == if |items| <= handle then handle + 1 else |items|
    ensures forall other :: Lookup(r, other, default) == if other == handle then item else Lookup(items, other, default)
  {
    var grown := if |items| <= handle then items + seq(handle + 1 - |items|, _ => default) else items;
    grown[handle := item]
  }

  /** Adding to the vector stored for a handle. */
  function PushedAt<T>(items: seq<seq<T>>, handle: nat, x: T): (r: seq<seq<T>>)
    ensures |r| == if |items| <= handle then handle + 1 else |items|
    ensures forall other :: Lookup(r, other, []) == Lookup(items, other, []) + if other == handle then [x] else []
  {
    Updated(items, handle, Lookup(items, handle, []) + [x], [])
  }

  /** A count that stops at many. */
  datatype Degree = Zero | One | Multiple {
    function Plus(other: Degree): Degree {
      if this == Zero then other else if other == Zero then this else Multiple
    }
  }

  function Saturated(n: nat): Degree {
    if n == 0 then Zero else if n == 1 then One else Multiple
  }

  lemma SaturatedPlus(n: nat, m: nat)
    ensures Saturated(n).Plus(Saturated(m)) == Saturated(n + m)
  {
  }
}
