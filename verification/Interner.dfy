/**
 The string interner: strings are copied to buffers that are never resized, so references to them stay good,
 and equal strings are stored once.  Full buffers double in size, so few of them suffice.
 */
module Interner {
  import opened Wrappers

  type Byte = b: int | 0 <= b < 256

  const INITIAL_STRING_CAPACITY: nat := 512

  function Pow2(e: nat): (r: nat)
    ensures r > 0
  {
    if e == 0 then 1 else 2 * Pow2(e - 1)
  }

  /** The exponent of the smallest power of two that is no less than `n`. */
  function CeilLog(n: nat): nat {
    if n <= 1 then 0 else 1 + CeilLog((n + 1) / 2)
  }

  function NextPowerOfTwo(n: nat): nat {
    Pow2(CeilLog(n))
  }

  lemma {:induction false} Pow2Monotonic(a: nat, b: nat)
    requires a <= b
    ensures Pow2(a) <= Pow2(b)
  {
    if a < b {
      Pow2Monotonic(a, b - 1);
    }
  }

  lemma {:induction false} CeilLogLeast(n: nat, e: nat)
    ensures Pow2(CeilLog(n)) >= n
    ensures Pow2(e) >= n <==> e >= CeilLog(n)
    decreases n
  {
    if n > 1 {
      CeilLogLeast((n + 1) / 2, if e > 0 then e - 1 else 0);
    }
  }

  /** Where a string is: a stretch of a buffer. */
  datatype StringContent = StringContent(buffer: array<Byte>, start: nat, len: nat)

  ghost function Sum(s: seq<nat>): nat {
    if s == [] then 0 else Sum(s[..|s| - 1]) + s[|s| - 1]
  }

  /** A power of two, with at least the given exponent. */
  ghost predicate IsPowerFrom(n: nat, least: nat) {
    exists e: nat :: e >= least && n == Pow2(e)
  }

  /** Copies bytes to a stretch of a buffer. */
  method CopyTo(buffer: array<Byte>, start: nat, value: seq<Byte>)
    requires start + |value| <= buffer.Length
    modifies buffer
    ensures buffer[..start] == old(buffer[..start]) && buffer[start..start + |value|] == value
  {
    for i := 0 to |value|
      invariant buffer[..start] == old(buffer[..start]) && buffer[start..start + i] == value[..i]
    {
      buffer[start + i] := value[i];
      assert buffer[start..start + i + 1] == buffer[start..start + i] + [value[i]];
    }
  }

  class InternedStringArena {
    var currentBuffer: array<Byte>
    /** How much of the current buffer is used. */
    var used: nat
    var fullBuffers: seq<array<Byte>>
    ghost var fullUsed: seq<nat>

    ghost predicate Valid()
      reads this
    {
      && used <= currentBuffer.Length
      && currentBuffer !in fullBuffers
      && |fullUsed| == |fullBuffers|
      && (forall i :: 0 <= i < |fullUsed| ==> fullUsed[i] <= fullBuffers[i].Length)
      && IsPowerFrom(currentBuffer.Length, 9 + |fullBuffers|)
      && (fullBuffers != [] ==> Stored() > INITIAL_STRING_CAPACITY * Pow2(|fullBuffers| - 1))
    }

    /** The number of bytes stored. */
    ghost function Stored(): nat
      reads this
    {
      Sum(fullUsed) + used
    }

    /** The stretch has been filled, with these bytes. */
    ghost predicate Holds(c: StringContent, content: seq<Byte>)
      reads this, currentBuffer, fullBuffers
    {
      && (c.buffer == currentBuffer || c.buffer in fullBuffers)
      && c.start + c.len <= (if c.buffer == currentBuffer then used else c.buffer.Length)
      && c.start + c.len <= c.buffer.Length
      && c.buffer[c.start..c.start + c.len] == content
    }

    constructor ()
      ensures Valid() && fullBuffers == [] && used == 0 && fresh(currentBuffer)
    {
      currentBuffer := new Byte[INITIAL_STRING_CAPACITY];
      used, fullBuffers, fullUsed := 0, [], [];
      new;
      assert Pow2(9) == 512 by {
        assert Pow2(3) == 8 && Pow2(6) == 64;
      }
      assert IsPowerFrom(currentBuffer.Length, 9);
    }

    /** Makes room for a string of some length: in a new buffer if need be. */
    method MakeRoom(len: nat)
      requires Valid()
      modifies this
      ensures used <= currentBuffer.Length && len <= currentBuffer.Length - used
      ensures currentBuffer !in fullBuffers && |fullUsed| == |fullBuffers|
      ensures forall i :: 0 <= i < |fullUsed| ==> fullUsed[i] <= fullBuffers[i].Length
      ensures IsPowerFrom(currentBuffer.Length, 9 + |fullBuffers|)
      ensures Stored() == old(Stored())
      ensures fullBuffers != [] ==> Stored() + len > INITIAL_STRING_CAPACITY * Pow2(|fullBuffers| - 1) ||
                                    (fullBuffers == old(fullBuffers) &&
                                     Stored() > INITIAL_STRING_CAPACITY * Pow2(|fullBuffers| - 1))
      ensures if currentBuffer == old(currentBuffer) then fullBuffers == old(fullBuffers) && used == old(used)
              else fresh(currentBuffer) && fullBuffers == old(fullBuffers) + [old(currentBuffer)] && used == 0
    {
      hide Pow2, IsPowerFrom, CeilLog, NextPowerOfTwo;
      var capacity := currentBuffer.Length;
      if len > capacity - used {
        var newCapacity := NextPowerOfTwo((if capacity > len then capacity else len) + 1);
        BiggerPower(capacity, 9 + |fullBuffers|, len, |fullBuffers|);
        var newBuffer := new Byte[newCapacity];
        fullBuffers := fullBuffers + [currentBuffer];
        fullUsed := fullUsed + [used];
        assert fullUsed[..|fullUsed| - 1] == old(fullUsed);
        currentBuffer, used := newBuffer, 0;
      }
    }

    /** Copies a string in; all those stored before are still there, and read the same. */
    method Add(value: seq<Byte>) returns (c: StringContent)
      requires Valid()
      modifies this, currentBuffer
      ensures Valid() && Holds(c, value)
      ensures Stored() == old(Stored()) + |value|
      ensures forall other: StringContent, content: seq<Byte> | old(allocated(other)) && old(Holds(other, content)) ::
                Holds(other, content)
      ensures currentBuffer == old(currentBuffer) || fresh(currentBuffer)
    {
      hide Pow2, IsPowerFrom, Sum;
      MakeRoom(|value|);
      var start := used;
      ghost var before := currentBuffer[..start];
      assert currentBuffer == old(currentBuffer) ==> before == old(currentBuffer[..used]);
      CopyTo(currentBuffer, start, value);
      used := used + |value|;
      c := StringContent(currentBuffer, start, |value|);
      forall other: StringContent, content: seq<Byte> | old(allocated(other)) && old(Holds(other, content))
        ensures Holds(other, content)
      {
        if other.buffer == currentBuffer {
          var from, to := other.start, other.start + other.len;
          assert currentBuffer == old(currentBuffer) && to <= start;
          assert content == old(currentBuffer[..used])[from..to] == before[from..to];
          assert currentBuffer[from..to] == currentBuffer[..start][from..to];
        } else {
          assert other.buffer[..] == old(other.buffer[..]);
        }
      }
    }
  }

  /** The next buffer has room for the string, and is at least twice as big as the last one. */
  lemma BiggerPower(capacity: nat, least: nat, len: nat, k: nat)
    requires IsPowerFrom(capacity, least) && least >= 9 + k
    ensures var n := NextPowerOfTwo((if capacity > len then capacity else len) + 1);
            n >= len && n > capacity && IsPowerFrom(n, least + 1)
    ensures capacity >= INITIAL_STRING_CAPACITY * Pow2(k)
  {
    var e: nat :| e >= least && capacity == Pow2(e);
    var wanted := (if capacity > len then capacity else len) + 1;
    CeilLogLeast(wanted, e);
    assert CeilLog(wanted) >= least + 1;
    FullBufferSize(e, k);
  }

  /** Full buffers are at least twice as big as the one before. */
  lemma FullBufferSize(e: nat, k: nat)
    requires e >= 9 + k
    ensures Pow2(e) >= INITIAL_STRING_CAPACITY * Pow2(k)
  {
    Pow2Monotonic(9 + k, e);
    Pow2Sum(k);
  }

  lemma {:induction false} Pow2Sum(k: nat)
    ensures Pow2(9 + k) == 512 * Pow2(k)
  {
    if k == 0 {
      assert Pow2(3) == 8 && Pow2(6) == 64 && Pow2(9) == 512;
    } else {
      Pow2Sum(k - 1);
    }
  }

  /** Every string has one handle, its position, and the map knows it. */
  ghost predicate Numbered(contents: seq<seq<Byte>>, handles: map<seq<Byte>, nat>) {
    && (forall i :: 0 <= i < |contents| ==> contents[i] in handles && handles[contents[i]] == i)
    && (forall s :: s in handles ==> handles[s] < |contents| && contents[handles[s]] == s)
  }

  lemma NumberedHas(contents: seq<seq<Byte>>, handles: map<seq<Byte>, nat>, s: seq<Byte>)
    requires Numbered(contents, handles)
    ensures s in handles <==> s in contents
    ensures s in handles ==> handles[s] < |contents| && contents[handles[s]] == s
  {
  }

  lemma NumberedMore(contents: seq<seq<Byte>>, handles: map<seq<Byte>, nat>, s: seq<Byte>)
    requires Numbered(contents, handles) && s !in handles
    ensures Numbered(contents + [s], handles[s := |contents|])
  {
  }

  /** Two handles are the same exactly when their strings are. */
  lemma SameStringSameHandle(contents: seq<seq<Byte>>, handles: map<seq<Byte>, nat>, a: nat, b: nat)
    requires Numbered(contents, handles) && a < |contents| && b < |contents|
    ensures a == b <==> contents[a] == contents[b]
  {
    assert handles[contents[a]] == a && handles[contents[b]] == b;
  }

  /** The symbols of a graph; a symbol's handle is its position. */
  class SymbolArena {
    const strings: InternedStringArena
    var symbols: seq<StringContent>
    var handles: map<seq<Byte>, nat>
    /** The strings that have been added, each of them once. */
    ghost var contents: seq<seq<Byte>>

    ghost predicate Valid()
      reads this, strings, strings.currentBuffer, strings.fullBuffers
    {
      && strings.Valid()
      && |symbols| == |contents|
      && (forall i :: 0 <= i < |symbols| ==> strings.Holds(symbols[i], contents[i]))
      && Numbered(contents, handles)
    }

    constructor ()
      ensures Valid() && contents == [] && fresh(strings) && fresh(strings.currentBuffer)
    {
      strings := new InternedStringArena();
      symbols, handles, contents := [], map[], [];
    }

    /** Stores a string that is new. */
    method InternSymbol(symbol: seq<Byte>) returns (h: nat)
      requires Valid() && symbol !in handles
      modifies this, strings, strings.currentBuffer
      ensures Valid() && h == |old(contents)| && contents == old(contents) + [symbol]
      ensures strings.currentBuffer == old(strings.currentBuffer) || fresh(strings.currentBuffer)
    {
      hide InternedStringArena.Valid, InternedStringArena.Holds, Numbered;
      var interned := strings.Add(symbol);
      NumberedMore(contents, handles, symbol);
      h := |symbols|;
      symbols := symbols + [interned];
      handles := handles[symbol := h];
      contents := contents + [symbol];
    }

    /** Every earlier string reads back unchanged, and every string has one handle. */
    method AddSymbol(symbol: seq<Byte>) returns (h: nat)
      requires Valid()
      modifies this, strings, strings.currentBuffer
      ensures Valid() && h < |contents| && contents[h] == symbol
      ensures contents == if symbol in old(contents) then old(contents) else old(contents) + [symbol]
      ensures strings.currentBuffer == old(strings.currentBuffer) || fresh(strings.currentBuffer)
    {
      hide InternedStringArena.Valid, InternedStringArena.Holds, Numbered;
      NumberedHas(contents, handles, symbol);
      if symbol in handles {
        return handles[symbol];
      }
      h := InternSymbol(symbol);
    }

    /** What a handle stands for. */
    method AsString(h: nat) returns (s: seq<Byte>)
      requires Valid() && h < |contents|
      ensures s == contents[h]
    {
      assert strings.Holds(symbols[h], contents[h]);
      var c := symbols[h];
      s := c.buffer[c.start..c.start + c.len];
    }
  }
}
