/** The per-context store of operation results: one outcome per operation,
    a validity map, and one invalidation mask per variable.  Outcomes are
    marked valid when written (if validity is tracked) and masked out when
    a variable they depend on changes. */
module Cache {
  import opened Errors
  import opened Values
  import opened Nodes
  import opened Bitmaps
  import opened Relations
  import Words

  /** `Results`: the AND masks, one per variable in declaration order;
      whether validity is tracked; the validity map; the outcomes. */
  datatype Results = Results(masks: seq<Bitmap>, cache: bool, valid: Bitmap, outcomes: seq<Result<Value>>)

  /** The outcome of an operation not computed yet, or out of date. */
  const NotReady: Result<Value> := Err(ExprNotReady)

  /** Sized for `n` operations. */
  predicate Shaped(R: Results, n: nat)
  {
    |R.valid| == n && |R.outcomes| == n
  }

  /** A store for `n` operations with the given masks. */
  function FreshWith(masks: seq<Bitmap>, n: nat, cache: bool): (r: Results)
    ensures Shaped(r, n) && r.masks == masks && r.cache == cache
    ensures forall i :: 0 <= i < n ==> !Valid(r, i) && Read(r, i) == NotReady
  {
    Results(masks, cache, New(n, false), seq(n, _ => NotReady))
  }

  /** `Results(ops, cache)`: the masks are the complemented invalidation
      maps, every operation invalid and not ready. */
  function Fresh(ops: seq<Node>, cache: bool): (r: Results)
    requires RefsBackward(ops)
    ensures Shaped(r, |ops|) && r.cache == cache
    ensures |r.masks| == |VarIds(ops)|
    ensures forall i :: 0 <= i < |ops| ==> !Valid(r, i) && Read(r, i) == NotReady
  {
    FreshWith(Invalidations(ops, true), |ops|, cache)
  }

  /** The same store over the masks the short-circuiting marking builds. */
  function FreshAsWritten(ops: seq<Node>, cache: bool): (r: Results)
    requires RefsBackward(ops)
    ensures Shaped(r, |ops|) && r.cache == cache
    ensures |r.masks| == |VarIds(ops)|
    ensures forall i :: 0 <= i < |ops| ==> !Valid(r, i) && Read(r, i) == NotReady
  {
    FreshWith(InvalidationsAsWritten(ops, true), |ops|, cache)
  }

  /** `valid(op)`: validity is tracked and the outcome is up to date. */
  predicate Valid(R: Results, op: nat)
  {
    R.cache && op < |R.valid| && R.valid[op]
  }

  /** `invalidate(var)`: unless validity is off or `var` has no mask, the
      validity map is ANDed with the variable's mask; outcomes are kept. */
  function Invalidate(R: Results, v: nat): (r: Results)
    ensures r.masks == R.masks && r.cache == R.cache && r.outcomes == R.outcomes
    ensures |r.valid| == |R.valid|
    ensures !R.cache || v >= |R.masks| ==> r == R
    ensures forall i :: Valid(r, i) ==> Valid(R, i)
    ensures R.cache && v < |R.masks| ==>
      forall i :: 0 <= i < |R.valid| && i < |R.masks[v]| ==> (Valid(r, i) <==> Valid(R, i) && R.masks[v][i])
  {
    if !R.cache || v >= |R.masks| then R
    else R.(valid := And(R.valid, R.masks[v]))
  }

  /** `results[op] = out`: the outcome is stored, error or success alike,
      and marked valid when validity is tracked. */
  function Write(R: Results, op: nat, out: Result<Value>): (r: Results)
    ensures r.masks == R.masks && r.cache == R.cache
    ensures |r.valid| == |R.valid| && |r.outcomes| == |R.outcomes|
    ensures forall i :: 0 <= i < |R.outcomes| && i != op ==> r.outcomes[i] == R.outcomes[i]
    ensures forall i :: i != op ==> (Valid(r, i) <==> Valid(R, i))
  {
    if op < |R.outcomes| && op < |R.valid| then
      R.(outcomes := R.outcomes[op := out], valid := if R.cache then Set(R.valid, op) else R.valid)
    else R
  }

  /** `results[op] = out` as written: validity is set through the `set` of
      the word buffer that shifts a 32-bit `int`. */
  function WriteAsWritten(R: Results, op: nat, out: Result<Value>): (r: Results)
    ensures r.masks == R.masks && r.cache == R.cache && r.outcomes == Write(R, op, out).outcomes
    ensures |r.valid| == |R.valid|
  {
    if op < |R.outcomes| && op < |R.valid| then
      R.(outcomes := R.outcomes[op := out], valid := if R.cache then Words.SetBitsAsWritten(R.valid, op) else R.valid)
    else R
  }

  /** For a store of at most 31 operations the as-written write is the
      corrected one. */
  lemma WriteAsWrittenAgreesBelow31(R: Results, op: nat, out: Result<Value>)
    requires |R.valid| <= 31
    ensures WriteAsWritten(R, op, out) == Write(R, op, out)
  {
    if op < |R.outcomes| && op < |R.valid| && R.cache {
      Words.SetBitsAsWrittenAgreesBelow31(R.valid, op);
    }
  }

  /** Writing an operation at offset 31 of a validity word as written marks
      every later operation of that word up to date, so its handle answers
      whatever outcome it held; the corrected write leaves it as it was. */
  lemma WriteAsWrittenValidatesLater(R: Results, op: nat, out: Result<Value>, j: nat)
    requires Shaped(R, |R.outcomes|) && R.cache
    requires op < j < |R.valid| && op % 64 == 31 && j / 64 == op / 64
    ensures Valid(WriteAsWritten(R, op, out), j) && Read(WriteAsWritten(R, op, out), j) == R.outcomes[j]
    ensures Valid(Write(R, op, out), j) == Valid(R, j)
  {
    Words.SetBitsAsWrittenSignExtends(R.valid, op, j);
  }

  /** Reading the handle of `op`: the outcome when validity is off or the
      outcome is up to date, not ready otherwise. */
  function Read(R: Results, op: nat): (r: Result<Value>)
    ensures R.cache && !Valid(R, op) ==> r == NotReady
    ensures (!R.cache || Valid(R, op)) && op < |R.outcomes| ==> r == R.outcomes[op]
  {
    if (!R.cache || Valid(R, op)) && op < |R.outcomes| then R.outcomes[op] else NotReady
  }

  /** Writing then reading a handle gives back what was written, and the
      operation counts as up to date exactly when validity is tracked. */
  lemma ReadAfterWrite(R: Results, op: nat, out: Result<Value>, other: nat)
    requires Shaped(R, |R.outcomes|) && op < |R.outcomes|
    ensures Read(Write(R, op, out), op) == out
    ensures Valid(Write(R, op, out), op) <==> R.cache
    ensures other != op ==> Read(Write(R, op, out), other) == Read(R, other)
  {
  }

  /** Invalidating never changes what a still-valid operation reads, and
      with validity off it changes nothing at all. */
  lemma ReadAfterInvalidate(R: Results, v: nat, op: nat)
    ensures Valid(Invalidate(R, v), op) ==> Read(Invalidate(R, v), op) == Read(R, op)
    ensures !R.cache ==> Read(Invalidate(R, v), op) == Read(R, op)
  {
  }

  /** With the masks of a store built for `ops`, invalidating variable `k`
      marks out of date exactly the operations that depend on it. */
  lemma InvalidateDropsDependents(ops: seq<Node>, R: Results, k: nat, i: nat)
    requires RefsBackward(ops) && AllReachable(ops)
    requires R.masks == Invalidations(ops, true) && Shaped(R, |ops|) && R.cache
    requires k < |VarIds(ops)| && i < |ops|
    ensures Valid(Invalidate(R, k), i) <==> Valid(R, i) && !Depends(ops, i, VarIds(ops)[k])
  {
    InvalidationsExact(ops, k, i);
  }
}
