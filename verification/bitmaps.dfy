/** The dynamic bitset used for validity and invalidation maps, seen as the
    sequence of its bits `test(0) … test(size - 1)`.  The word buffer that
    implements it is modelled in module `Words`, which refines this one. */
module Bitmaps {

  type Bitmap = seq<bool>

  /** `Bitmap(count, fill)`. */
  function New(count: nat, fill: bool): (b: Bitmap)
    ensures |b| == count
    ensures forall i :: 0 <= i < count ==> b[i] == fill
  {
    seq(count, _ => fill)
  }

  /** `set(i)`: bit `i` becomes true, no other bit changes. */
  function Set(b: Bitmap, i: nat): (r: Bitmap)
    requires i < |b|
    ensures |r| == |b| && r[i]
    ensures forall j :: 0 <= j < |b| && j != i ==> r[j] == b[j]
  {
    b[i := true]
  }

  /** `reset(i)`: bit `i` becomes false, no other bit changes. */
  function Reset(b: Bitmap, i: nat): (r: Bitmap)
    requires i < |b|
    ensures |r| == |b| && !r[i]
    ensures forall j :: 0 <= j < |b| && j != i ==> r[j] == b[j]
  {
    b[i := false]
  }

  /** Assigning a bool through the `Bit` proxy sets or resets the bit. */
  function Assign(b: Bitmap, i: nat, v: bool): (r: Bitmap)
    requires i < |b|
    ensures r == b[i := v]
  {
    if v then Set(b, i) else Reset(b, i)
  }

  /** `~b`: same size, every bit flipped. */
  function Not(b: Bitmap): (r: Bitmap)
    ensures |r| == |b|
    ensures forall i :: 0 <= i < |b| ==> r[i] == !b[i]
  {
    seq(|b|, i requires 0 <= i < |b| => !b[i])
  }

  /** `b &= o` over the bits both maps have; the other bits of `b` are kept. */
  function And(b: Bitmap, o: Bitmap): (r: Bitmap)
    ensures |r| == |b|
    ensures forall i :: 0 <= i < |b| && i < |o| ==> r[i] == (b[i] && o[i])
    ensures forall i :: |o| <= i < |b| ==> r[i] == b[i]
  {
    seq(|b|, i requires 0 <= i < |b| => if i < |o| then b[i] && o[i] else b[i])
  }

  /** `b |= o` over the bits both maps have; the other bits of `b` are kept. */
  function Or(b: Bitmap, o: Bitmap): (r: Bitmap)
    ensures |r| == |b|
    ensures forall i :: 0 <= i < |b| && i < |o| ==> r[i] == (b[i] || o[i])
    ensures forall i :: |o| <= i < |b| ==> r[i] == b[i]
  {
    seq(|b|, i requires 0 <= i < |b| => if i < |o| then b[i] || o[i] else b[i])
  }

  /** Complement is an involution, and And with the complement of a mask
      clears exactly the mask's bits: the two facts the invalidation maps
      rely on. */
  lemma NotNotAndNot(b: Bitmap, m: Bitmap)
    requires |b| == |m|
    ensures Not(Not(m)) == m
    ensures forall i :: 0 <= i < |b| ==> (And(b, Not(m))[i] <==> b[i] && !m[i])
  {
  }

  // ---------------------------------------------------------------------
  // const_iterator: a position in 0 .. size.

  /** `++it`: advances until the end position and then stays there. */
  function Next(b: Bitmap, pos: nat): (r: nat)
    requires pos <= |b|
    ensures r <= |b|
    ensures pos < |b| ==> r == pos + 1
    ensures pos == |b| ==> r == pos
  {
    if pos < |b| then pos + 1 else pos
  }

  /** The values an iteration from position `pos` to the end yields. */
  function IterateFrom(b: Bitmap, pos: nat): (r: seq<bool>)
    requires pos <= |b|
    decreases |b| - pos
  {
    if pos == |b| then [] else [b[pos]] + IterateFrom(b, Next(b, pos))
  }

  /** Iterating from `begin()` to `end()` yields `test(0) … test(size - 1)`. */
  lemma {:induction false} IterateYieldsBits(b: Bitmap, pos: nat)
    requires pos <= |b|
    ensures IterateFrom(b, pos) == b[pos..]
    decreases |b| - pos
  {
    if pos < |b| {
      IterateYieldsBits(b, pos + 1);
    }
  }
}
