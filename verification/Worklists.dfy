/**
 A first-in first-out worklist, against which the phases of the stitcher are judged.  Items are taken
 from the front; what an item is extended to goes to the back.  The first `initial` items are always
 extended, later ones only if `extendWhile` says so.
 */
module Worklists {
  datatype Extended<+S, +I> = Extended(state: S, items: seq<I>, performed: nat)

  datatype Rules<!S, !I> = Rules(extend: (S, I) -> Extended<S, I>, extendWhile: I -> bool)

  datatype Fifo<+S, +I> = Fifo(pending: seq<I>, initial: nat, state: S)

  /** What one step adds to the back, and the worklist after it.  An empty worklist stays as it is. */
  function Added<S, I>(r: Rules<S, I>, f: Fifo<S, I>): seq<I> {
    if f.pending != [] && (f.initial > 0 || r.extendWhile(f.pending[0]))
    then r.extend(f.state, f.pending[0]).items
    else []
  }

  function StateAfter<S, I>(r: Rules<S, I>, f: Fifo<S, I>): S {
    if f.pending != [] && (f.initial > 0 || r.extendWhile(f.pending[0]))
    then r.extend(f.state, f.pending[0]).state
    else f.state
  }

  function Step<S, I>(r: Rules<S, I>, f: Fifo<S, I>): Fifo<S, I> {
    if f.pending == [] then f
    else Fifo(f.pending[1..] + Added(r, f), if f.initial > 0 then f.initial - 1 else 0, StateAfter(r, f))
  }

  function Steps<S, I>(r: Rules<S, I>, f: Fifo<S, I>, n: nat): Fifo<S, I> {
    if n == 0 then f else Step(r, Steps(r, f, n - 1))
  }

  /** The items that `n` steps add. */
  function Discovered<S, I>(r: Rules<S, I>, f: Fifo<S, I>, n: nat): seq<I> {
    if n == 0 then [] else Discovered(r, f, n - 1) + Added(r, Steps(r, f, n - 1))
  }

  /** The items that `n` steps take from the front. */
  function Processed<S, I>(r: Rules<S, I>, f: Fifo<S, I>, n: nat): seq<I> {
    if n == 0 then []
    else
      var pending := Steps(r, f, n - 1).pending;
      Processed(r, f, n - 1) + if pending == [] then [] else [pending[0]]
  }

  /** The items about which `n` steps ask `extendWhile`. */
  function Asked<S, I>(r: Rules<S, I>, f: Fifo<S, I>, n: nat): seq<I> {
    if n == 0 then []
    else
      var before := Steps(r, f, n - 1);
      Asked(r, f, n - 1) + if before.pending != [] && before.initial == 0 then [before.pending[0]] else []
  }

  // ---------------------------------------------------------------------------------------------
  // Work

  /** The next step extends the item at the front. */
  predicate Extends<S, I>(r: Rules<S, I>, f: Fifo<S, I>) {
    f.pending != [] && (f.initial > 0 || r.extendWhile(f.pending[0]))
  }

  function Performed<S, I>(r: Rules<S, I>, f: Fifo<S, I>): nat {
    if Extends(r, f) then r.extend(f.state, f.pending[0]).performed else 0
  }

  /** The work of `n` steps. */
  function Work<S, I>(r: Rules<S, I>, f: Fifo<S, I>, n: nat): nat {
    if n == 0 then 0 else Work(r, f, n - 1) + Performed(r, Steps(r, f, n - 1))
  }

  /**
   How far a phase goes: up to the first step that extends an item and brings the work up to the bound, and
   otherwise through all items that were there at its start.
   */
  ghost predicate PhaseOf<S, I>(r: Rules<S, I>, f: Fifo<S, I>, maxWork: nat, steps: nat) {
    && steps <= |f.pending|
    && (forall k: nat :: k + 1 < steps && Extends(r, Steps(r, f, k)) ==> Work(r, f, k + 1) < maxWork)
    && (steps < |f.pending| ==> steps > 0 && Extends(r, Steps(r, f, steps - 1)) && Work(r, f, steps) >= maxWork)
  }

  lemma PhaseNoLonger<S, I>(r: Rules<S, I>, f: Fifo<S, I>, maxWork: nat, steps: nat, other: nat)
    requires PhaseOf(r, f, maxWork, steps) && steps < other
    ensures !PhaseOf(r, f, maxWork, other)
  {
    hide Work, Extends, Steps;
    if other <= |f.pending| {
      var k := steps - 1;
      assert Extends(r, Steps(r, f, k)) && Work(r, f, k + 1) >= maxWork;
    }
  }

  /** So the bound decides how many steps a phase takes. */
  lemma PhaseUnique<S, I>(r: Rules<S, I>, f: Fifo<S, I>, maxWork: nat, steps: nat, other: nat)
    requires PhaseOf(r, f, maxWork, steps) && PhaseOf(r, f, maxWork, other)
    ensures steps == other
  {
    hide PhaseOf;
    if steps < other {
      PhaseNoLonger(r, f, maxWork, steps, other);
    } else if other < steps {
      PhaseNoLonger(r, f, maxWork, other, steps);
    }
  }

  lemma {:induction false} StepsCompose<S, I>(r: Rules<S, I>, f: Fifo<S, I>, n: nat, m: nat)
    ensures Steps(r, Steps(r, f, n), m) == Steps(r, f, n + m)
    ensures Discovered(r, f, n + m) == Discovered(r, f, n) + Discovered(r, Steps(r, f, n), m)
    ensures Processed(r, f, n + m) == Processed(r, f, n) + Processed(r, Steps(r, f, n), m)
    ensures Asked(r, f, n + m) == Asked(r, f, n) + Asked(r, Steps(r, f, n), m)
  {
    hide Added, Step;
    if m > 0 {
      StepsCompose(r, f, n, m - 1);
    }
  }

  lemma Regrouped<I>(start: seq<I>, discovered: seq<I>, processed: seq<I>, pending: seq<I>, added: seq<I>)
    requires pending != [] && start + discovered == processed + pending
    ensures start + (discovered + added) == (processed + [pending[0]]) + (pending[1..] + added)
  {
    var all := start + discovered;
    assert start + (discovered + added) == all + added;
    assert pending == [pending[0]] + pending[1..];
    assert (processed + [pending[0]]) + (pending[1..] + added) == all + added;
  }

  /** Nothing is lost or processed twice: what was there and what was added is processed or pending, in order. */
  lemma {:induction false} NothingLost<S, I>(r: Rules<S, I>, f: Fifo<S, I>, n: nat)
    ensures f.pending + Discovered(r, f, n) == Processed(r, f, n) + Steps(r, f, n).pending
  {
    hide Added, StateAfter;
    if n > 0 {
      NothingLost(r, f, n - 1);
      var before := Steps(r, f, n - 1);
      if before.pending != [] {
        Regrouped(f.pending, Discovered(r, f, n - 1), Processed(r, f, n - 1), before.pending, Added(r, before));
      } else {
        NoneAdded(r, before);
      }
    }
  }

  lemma NoneAdded<S, I>(r: Rules<S, I>, f: Fifo<S, I>)
    requires f.pending == []
    ensures Added(r, f) == []
  {
  }

  /** `extendWhile` is asked about every processed item but the first `initial` ones. */
  lemma {:induction false} InitialNeverAsked<S, I>(r: Rules<S, I>, f: Fifo<S, I>, n: nat)
    ensures var k := |Processed(r, f, n)|;
            && (k <= f.initial ==> Asked(r, f, n) == [] && Steps(r, f, n).initial == f.initial - k)
            && (k > f.initial ==> Asked(r, f, n) == Processed(r, f, n)[f.initial..] && Steps(r, f, n).initial == 0)
  {
    if n > 0 {
      InitialNeverAsked(r, f, n - 1);
    }
  }

  lemma {:induction false} CompleteStays<S, I>(r: Rules<S, I>, f: Fifo<S, I>, n: nat, m: nat)
    requires Steps(r, f, n).pending == []
    ensures Steps(r, f, n + m) == Steps(r, f, n)
    ensures Discovered(r, f, n + m) == Discovered(r, f, n) && Processed(r, f, n + m) == Processed(r, f, n)
  {
    if m > 0 {
      CompleteStays(r, f, n, m - 1);
    }
  }

  /** So two complete runs discover and process the same items in the same order, however many steps they took. */
  lemma CompleteRunsAgree<S, I>(r: Rules<S, I>, f: Fifo<S, I>, n: nat, m: nat)
    requires Steps(r, f, n).pending == [] && Steps(r, f, m).pending == []
    ensures Discovered(r, f, n) == Discovered(r, f, m)
    ensures Processed(r, f, n) == Processed(r, f, m) == f.pending + Discovered(r, f, m)
  {
    hide *;
    if n <= m {
      CompleteStays(r, f, n, m - n);
    } else {
      CompleteStays(r, f, m, n - m);
    }
    NothingLost(r, f, m);
    assert Processed(r, f, m) + [] == Processed(r, f, m);
  }

  /** The `m`th processed item is the one that step `m` finds at the front. */
  lemma {:induction false} ProcessedAt<S, I>(r: Rules<S, I>, f: Fifo<S, I>, n: nat, m: nat)
    requires m < |Processed(r, f, n)|
    ensures m < n && Steps(r, f, m).pending != [] && Processed(r, f, n)[m] == Steps(r, f, m).pending[0]
  {
    hide Step, Added;
    if m < |Processed(r, f, n - 1)| {
      ProcessedAt(r, f, n - 1, m);
    } else {
      ProcessedCount(r, f, n - 1);
    }
  }

  lemma {:induction false} ProcessedCount<S, I>(r: Rules<S, I>, f: Fifo<S, I>, n: nat)
    requires Steps(r, f, n).pending != []
    ensures |Processed(r, f, n)| == n
  {
    if n > 0 {
      ProcessedCount(r, f, n - 1);
    }
  }

  /** What is pending comes to the front, after as many steps as there are items before it. */
  lemma {:induction false} FrontAfter<S, I>(r: Rules<S, I>, f: Fifo<S, I>, q: nat)
    requires q < |f.pending|
    ensures f.pending[q..] <= Steps(r, f, q).pending
    ensures Steps(r, f, q).pending != [] && Steps(r, f, q).pending[0] == f.pending[q]
  {
    hide Added;
    if q > 0 {
      FrontAfter(r, f, q - 1);
      var before := Steps(r, f, q - 1).pending;
      assert before[0] == f.pending[q - 1] && f.pending[q - 1..][1..] == f.pending[q..];
      assert before[1..] <= Steps(r, f, q).pending;
      assert f.pending[q..] <= before[1..];
    } else {
      assert f.pending[0..] == f.pending;
    }
  }

  /** Once everything is done, it stays done. */
  lemma {:induction false} StaysComplete<S, I>(r: Rules<S, I>, f: Fifo<S, I>, n: nat, k: nat)
    requires Steps(r, f, n).pending == [] && n <= k
    ensures Steps(r, f, k).pending == []
  {
    hide Added;
    if n < k {
      StaysComplete(r, f, n, k - 1);
    }
  }
}
