/** A context used for a sequence of substitutions and evaluations: with
    the corrected invalidation masks, caching never changes what an
    evaluation returns; with the short-circuiting masks it can. */
module Sessions {
  import opened Errors
  import Ops
  import opened Values
  import opened Nodes
  import Bitmaps
  import opened Relations
  import opened Cache
  import opened Contexts
  import opened Expressions

  /** One use of a context: assign a slot, or evaluate the expression. */
  datatype Step = Bind(slot: nat, value: Value) | Evaluate

  /** The results of the `Evaluate` steps, run on context `c`.  A slot
      the context does not have is ignored. */
  function Session(ex: Expression, c: Context, steps: seq<Step>): seq<Result<Value>>
    requires Ordered(ex)
    decreases |steps|
  {
    if steps == [] then []
    else match steps[0]
      case Bind(k, v) => Session(ex, if k < |c.subs| then Assign(c, k, v) else c, steps[1..])
      case Evaluate =>
        var x := Run(ex, c);
        [x.0] + Session(ex, x.1, steps[1..])
  }

  /** The reference: each `Evaluate` step answers the reference result of
      the root under the substitutions assigned so far. */
  function Replay(ex: Expression, subs: seq<Substitution>, steps: seq<Step>): (r: seq<Result<Value>>)
    requires Ordered(ex)
    decreases |steps|
  {
    if steps == [] then []
    else match steps[0]
      case Bind(k, v) => Replay(ex, if k < |subs| then subs[k := AssignValue(subs[k], v)] else subs, steps[1..])
      case Evaluate => [Denote(ex, subs, Root(ex.data.ops))] + Replay(ex, subs, steps[1..])
  }

  /** A context in step with the expression: one slot per variable, the
      corrected masks, and a coherent store. */
  predicate InStep(ex: Expression, c: Context)
    requires Ordered(ex)
  {
    && |c.subs| == |VarIds(ex.data.ops)|
    && c.results.masks == Invalidations(ex.data.ops, true)
    && Shaped(c.results, |ex.data.ops|)
    && Coherent(ex, c.subs, c.results)
  }

  /** A fresh context is in step, cached or not. */
  lemma FreshInStep(ex: Expression, cache: bool)
    requires Ordered(ex)
    ensures InStep(ex, ContextFor(ex, cache))
    ensures ContextFor(ex, cache).results.cache == cache
  {
  }

  /** Assigning a slot keeps a context in step: the mask clears every
      operation that depends on the variable, and the others keep their
      reference results. */
  lemma AssignKeepsInStep(ex: Expression, c: Context, k: nat, v: Value)
    requires Expressions.Valid(ex) && InStep(ex, c) && k < |c.subs|
    ensures InStep(ex, Assign(c, k, v))
  {
    var ops := ex.data.ops;
    var c2 := Assign(c, k, v);
    forall i | 0 <= i < |ops| && Cache.Valid(c2.results, i)
      ensures i < |c2.results.outcomes| && c2.results.outcomes[i] == Denote(ex, c2.subs, i)
    {
      InvalidateDropsDependents(ops, c.results, k, i);
      DenoteIgnoresOtherSlots(ex, c.subs, c2.subs, k, i);
    }
  }

  /** Evaluating keeps a context in step and answers the reference result
      of the root. */
  lemma RunInStep(ex: Expression, c: Context)
    requires Ordered(ex) && InStep(ex, c)
    ensures Run(ex, c).0 == Denote(ex, c.subs, Root(ex.data.ops))
    ensures InStep(ex, Run(ex, c).1)
  {
    EvalCorrect(ex, c.subs, Root(ex.data.ops), c.results);
  }

  /** A context in step answers every evaluation of a session with the
      reference result. */
  lemma {:induction false} SessionIsReplay(ex: Expression, c: Context, steps: seq<Step>)
    requires Expressions.Valid(ex) && InStep(ex, c)
    ensures Session(ex, c, steps) == Replay(ex, c.subs, steps)
    decreases |steps|
  {
    if steps != [] {
      match steps[0]
      case Bind(k, v) =>
        if k < |c.subs| {
          AssignKeepsInStep(ex, c, k, v);
          SessionIsReplay(ex, Assign(c, k, v), steps[1..]);
          assert Assign(c, k, v).subs == c.subs[k := AssignValue(c.subs[k], v)];
        } else {
          SessionIsReplay(ex, c, steps[1..]);
        }
      case Evaluate =>
        RunInStep(ex, c);
        SessionIsReplay(ex, Run(ex, c).1, steps[1..]);
    }
  }

  /** For the same steps, a caching context and a non-caching one return
      the same results. */
  lemma CacheIsTransparent(ex: Expression, steps: seq<Step>)
    requires Expressions.Valid(ex)
    ensures Session(ex, ContextFor(ex, true), steps) == Session(ex, ContextFor(ex, false), steps)
    ensures Session(ex, ContextFor(ex, true), steps) == Replay(ex, SlotsOf(ex.data.ops), steps)
  {
    FreshInStep(ex, true);
    FreshInStep(ex, false);
    SessionIsReplay(ex, ContextFor(ex, true), steps);
    SessionIsReplay(ex, ContextFor(ex, false), steps);
  }

  // ---------------------------------------------------------------------
  // With the short-circuiting masks.

  /** A context whose store carries the masks of the short-circuiting
      marking. */
  function ContextAsWritten(ex: Expression, cache: bool): (c: Context)
    requires Ordered(ex)
    ensures c.subs == SlotsOf(ex.data.ops) && c.results == FreshAsWritten(ex.data.ops, cache)
  {
    ContextFor(ex, cache).(results := FreshAsWritten(ex.data.ops, cache))
  }

  /** `plus(negate(a), bit_not(a))` under the sample semantics. */
  const DiamondEx: Expression := Expression(Sample, Ingredients([], Diamond, []))

  function Slot(a: int): seq<Substitution>
  {
    [Substitution(0, "a", Some(Int(a)))]
  }

  lemma DiamondIsBuilt()
    ensures Expressions.Valid(DiamondEx)
  {
    DiamondShape();
    assert Reaches(Diamond, 1, 0) by { assert Deps(Diamond[1]) == [0]; }
    assert Reaches(Diamond, 2, 0) by { assert Deps(Diamond[2]) == [0]; }
    assert Deps(Diamond[3]) == [1, 2];
    assert Reaches(Diamond, 3, 1) && Reaches(Diamond, 3, 2);
    forall i | 0 <= i < |Diamond|
      ensures Reaches(Diamond, Root(Diamond), i)
    {
    }
  }

  /** The reference result of the root is `-a + (-a - 1)`. */
  lemma DiamondDenotes(a: int)
    ensures RefsBackward(Diamond)
    ensures Denote(DiamondEx, Slot(a), 3) == Ok(Int(-2 * a - 1))
  {
    DiamondShape();
    var ex := DiamondEx;
    var subs := Slot(a);
    assert Denote(ex, subs, 0) == Ok(Int(a));
    assert Denote(ex, subs, 1) == Ok(Int(-a));
    assert Denote(ex, subs, 2) == Ok(Int(-a - 1));
  }

  /** The first evaluation, from a store with nothing up to date: every
      operation ends up valid, `bit_not(a)` holding `-a - 1`. */
  lemma DiamondFirstRun(R: Results, a: int)
    requires RefsBackward(Diamond)
    requires R.cache && Shaped(R, 4) && forall i :: !Cache.Valid(R, i)
    ensures var r := Eval(DiamondEx, Slot(a), 3, R);
      && r.masks == R.masks && r.cache && Shaped(r, 4)
      && Read(r, 3) == Ok(Int(-2 * a - 1))
      && r.outcomes[2] == Ok(Int(-a - 1))
      && forall i :: 0 <= i < 4 ==> Cache.Valid(r, i)
  {
    var ex := DiamondEx;
    var subs := Slot(a);
    DiamondLeftArm(R, a);
    var R1 := Eval(ex, subs, 1, R);
    DiamondRightArm(R1, a);
    var R2 := Eval(ex, subs, 2, R1);
    ReadAfterWrite(Write(R, 0, Ok(Int(a))), 1, Ok(Int(-a)), 0);
    ReadAfterWrite(R1, 2, Ok(Int(-a - 1)), 1);
    assert Read(R1, 1) == Ok(Int(-a)) && Read(R2, 2) == Ok(Int(-a - 1));
    assert Apply(Sample, Ops.Plus, [Int(-a), Int(-a - 1)]) == Ok(Int(-2 * a - 1));
    assert ex.data.ops[3] == Binary(Ops.Plus, 1, 2);
    EvalBinary(ex, subs, 3, R);
    var r := Write(R2, 3, Ok(Int(-2 * a - 1)));
    assert Eval(ex, subs, 3, R) == r;
    ReadAfterWrite(R2, 3, Ok(Int(-2 * a - 1)), 2);
  }

  /** `negate(a)` from a store with nothing up to date. */
  lemma DiamondLeftArm(R: Results, a: int)
    requires RefsBackward(Diamond)
    requires R.cache && Shaped(R, 4) && forall i :: !Cache.Valid(R, i)
    ensures Eval(DiamondEx, Slot(a), 1, R) == Write(Write(R, 0, Ok(Int(a))), 1, Ok(Int(-a)))
  {
    var ex := DiamondEx;
    var subs := Slot(a);
    EvalLeaf(ex, subs, 0, R);
    assert Eval(ex, subs, 0, R) == Write(R, 0, Ok(Int(a)));
    EvalUnary(ex, subs, 1, R);
  }

  /** `bit_not(a)` once `a` is up to date. */
  lemma DiamondRightArm(R: Results, a: int)
    requires RefsBackward(Diamond)
    requires R.cache && Shaped(R, 4) && Cache.Valid(R, 0) && !Cache.Valid(R, 2)
    requires R.outcomes[0] == Ok(Int(a))
    ensures Eval(DiamondEx, Slot(a), 2, R) == Write(R, 2, Ok(Int(-a - 1)))
  {
    var ex := DiamondEx;
    var subs := Slot(a);
    EvalUnary(ex, subs, 2, R);
    assert Eval(ex, subs, 0, R) == R;
  }

  /** The second evaluation, after the as-written invalidation left
      `bit_not(a)` up to date with the old value `-b - 1`: the root is
      recomputed from the new `negate(a)` and the stale `bit_not(a)`. */
  lemma DiamondStaleRun(R: Results, a: int, b: int)
    requires RefsBackward(Diamond)
    requires R.cache && Shaped(R, 4)
    requires !Cache.Valid(R, 0) && !Cache.Valid(R, 1) && Cache.Valid(R, 2) && !Cache.Valid(R, 3)
    requires R.outcomes[2] == Ok(Int(-b - 1))
    ensures Read(Eval(DiamondEx, Slot(a), 3, R), 3) == Ok(Int(-a - b - 1))
  {
    var ex := DiamondEx;
    var subs := Slot(a);
    EvalLeaf(ex, subs, 0, R);
    var R0 := Eval(ex, subs, 0, R);
    EvalUnary(ex, subs, 1, R);
    var R1 := Eval(ex, subs, 1, R);
    assert R1 == Write(R0, 1, Ok(Int(-a)));
    assert Eval(ex, subs, 2, R1) == R1;
    EvalBinary(ex, subs, 3, R);
    assert Eval(ex, subs, 3, R) == Write(R1, 3, Ok(Int(-a - b - 1)));
  }

  /** The as-written mask of `a` keeps `bit_not(a)` up to date. */
  lemma DiamondMask()
    ensures RefsBackward(Diamond) && |VarIds(Diamond)| == 1
    ensures InvalidationsAsWritten(Diamond, true)[0] == [false, false, true, false]
  {
    ShortCircuitMissesDependent();
    assert InvalidationsAsWritten(Diamond, true)[0] == Bitmaps.Not(InvalidationsAsWritten(Diamond, false)[0]);
  }

  const StaleSteps: seq<Step> := [Bind(0, Int(1)), Evaluate, Bind(0, Int(2)), Evaluate]

  /** The two results of `StaleSteps` on any context with a slot. */
  lemma StaleStepsSession(ex: Expression, c: Context)
    requires Ordered(ex) && 0 < |c.subs|
    ensures var c1 := Assign(c, 0, Int(1));
      var x := Run(ex, c1);
      var c2 := Assign(x.1, 0, Int(2));
      Session(ex, c, StaleSteps) == [x.0, Run(ex, c2).0]
  {
    assert StaleSteps[1..][1..] == [Bind(0, Int(2)), Evaluate];
    assert StaleSteps[1..][1..][1..] == [Evaluate];
  }

  /** The two reference results of `StaleSteps` from one unset slot. */
  lemma StaleStepsReplay(ex: Expression, subs: seq<Substitution>)
    requires Ordered(ex) && |subs| == 1
    ensures var s1 := subs[0 := AssignValue(subs[0], Int(1))];
      var s2 := s1[0 := AssignValue(s1[0], Int(2))];
      Replay(ex, subs, StaleSteps) == [Denote(ex, s1, Root(ex.data.ops)), Denote(ex, s2, Root(ex.data.ops))]
  {
    assert StaleSteps[1..][1..] == [Bind(0, Int(2)), Evaluate];
    assert StaleSteps[1..][1..][1..] == [Evaluate];
  }

  lemma DiamondSlots()
    ensures SlotsOf(Diamond) == [Substitution(0, "a", None)]
  {
    DiamondVars();
    var slots := SlotsOf(Diamond);
    assert |slots| == 1 && slots[0].id == 0 && slots[0].name == "a" && slots[0].value == None;
  }

  /** The corrected contexts answer the reference results `-3` then `-5`. */
  lemma DiamondSessionCorrected()
    ensures Expressions.Valid(DiamondEx)
    ensures Session(DiamondEx, ContextFor(DiamondEx, false), StaleSteps) == [Ok(Int(-3)), Ok(Int(-5))]
    ensures Session(DiamondEx, ContextFor(DiamondEx, true), StaleSteps) == [Ok(Int(-3)), Ok(Int(-5))]
  {
    DiamondIsBuilt();
    CacheIsTransparent(DiamondEx, StaleSteps);
    DiamondReplay();
  }

  /** The reference results of `StaleSteps` on `plus(negate(a), bit_not(a))`. */
  lemma DiamondReplay()
    ensures Expressions.Ordered(DiamondEx)
    ensures Replay(DiamondEx, SlotsOf(Diamond), StaleSteps) == [Ok(Int(-3)), Ok(Int(-5))]
  {
    var ex := DiamondEx;
    DiamondDenotes(1);
    DiamondDenotes(2);
    var slots := SlotsOf(Diamond);
    DiamondSlots();
    StaleStepsReplay(ex, slots);
    assert slots[0 := AssignValue(slots[0], Int(1))] == Slot(1);
    assert Slot(1)[0 := AssignValue(Slot(1)[0], Int(2))] == Slot(2);
  }

  /** After `a = 1` and a first evaluation, every operation is up to date. */
  lemma AsWrittenFirstRun()
    ensures RefsBackward(Diamond)
    ensures ContextAsWritten(DiamondEx, true).subs == [Substitution(0, "a", None)]
    ensures var x := Run(DiamondEx, Assign(ContextAsWritten(DiamondEx, true), 0, Int(1)));
      && x.0 == Ok(Int(-3)) && x.1.subs == Slot(1)
      && x.1.results.masks == InvalidationsAsWritten(Diamond, true)
      && x.1.results.cache && Shaped(x.1.results, 4)
      && x.1.results.outcomes[2] == Ok(Int(-2))
      && forall i :: 0 <= i < 4 ==> Cache.Valid(x.1.results, i)
  {
    DiamondMask();
    DiamondSlots();
    var c1 := Assign(ContextAsWritten(DiamondEx, true), 0, Int(1));
    assert c1.subs == Slot(1);
    DiamondFirstRun(c1.results, 1);
  }

  /** Then `a = 2` leaves `bit_not(a)` up to date, and the second
      evaluation answers `-4`. */
  lemma AsWrittenSecondRun(c: Context)
    requires RefsBackward(Diamond)
    requires c.subs == Slot(1) && c.results.masks == InvalidationsAsWritten(Diamond, true)
    requires c.results.cache && Shaped(c.results, 4) && c.results.outcomes[2] == Ok(Int(-2))
    requires forall i :: 0 <= i < 4 ==> Cache.Valid(c.results, i)
    ensures Run(DiamondEx, Assign(c, 0, Int(2))).0 == Ok(Int(-4))
  {
    DiamondMask();
    var c2 := Assign(c, 0, Int(2));
    assert c2.subs == Slot(2);
    var R := c2.results;
    assert R.valid == Bitmaps.And(c.results.valid, [false, false, true, false]);
    DiamondStaleRun(R, 2, 1);
  }

  /** The caching context with the short-circuiting masks answers `-3`
      then `-4`. */
  lemma DiamondSessionAsWritten()
    ensures RefsBackward(Diamond)
    ensures Session(DiamondEx, ContextAsWritten(DiamondEx, true), StaleSteps) == [Ok(Int(-3)), Ok(Int(-4))]
  {
    AsWrittenFirstRun();
    var c0 := ContextAsWritten(DiamondEx, true);
    StaleStepsSession(DiamondEx, c0);
    AsWrittenSecondRun(Run(DiamondEx, Assign(c0, 0, Int(1))).1);
  }

  /** With the short-circuiting masks, assigning `a = 1`, evaluating,
      assigning `a = 2` and evaluating again answers `-4` the second time,
      where a context without caching (and one with the corrected masks)
      answers `-5`. */
  lemma StaleCacheAsWritten()
    ensures Expressions.Valid(DiamondEx)
    ensures Session(DiamondEx, ContextAsWritten(DiamondEx, true), StaleSteps) == [Ok(Int(-3)), Ok(Int(-4))]
    ensures Session(DiamondEx, ContextFor(DiamondEx, false), StaleSteps) == [Ok(Int(-3)), Ok(Int(-5))]
    ensures Session(DiamondEx, ContextFor(DiamondEx, true), StaleSteps) == [Ok(Int(-3)), Ok(Int(-5))]
  {
    DiamondSessionCorrected();
    DiamondSessionAsWritten();
  }

  // ---------------------------------------------------------------------
  // The 32-bit shift of `set`, on a 34-operation list.

  /** `Const(1)`, 31 negations chained on it, `bit_not` of the constant and
      the sum of the last negation and the `bit_not`. */
  function WideOps(): (ops: seq<Node>)
    ensures |ops| == 34 && RefsBackward(ops)
  {
    seq(34, k requires 0 <= k < 34 =>
      if k == 0 then Const(0)
      else if k < 32 then Unary(Ops.Negate, k - 1)
      else if k == 32 then Unary(Ops.BitNot, 0)
      else Binary(Ops.Plus, 31, 32))
  }

  const WideEx: Expression := Expression(Sample, Ingredients([Int(1)], WideOps(), []))

  /** The negation chain alternates 1 and -1. */
  lemma {:induction false} WideChainDenotes(k: nat)
    requires k < 32
    ensures Denote(WideEx, [], k) == Ok(Int(if k % 2 == 0 then 1 else -1))
  {
    if k > 0 {
      WideChainDenotes(k - 1);
      assert WideEx.data.ops[k] == Unary(Ops.Negate, k - 1);
    } else {
      assert WideEx.data.ops[0] == Const(0);
    }
  }

  /** Uncached, the sum answers `-1 + -2`. */
  lemma WideDenotes()
    ensures Denote(WideEx, [], 32) == Ok(Int(-2))
    ensures Denote(WideEx, [], 33) == Ok(Int(-3))
  {
    WideChainDenotes(0);
    WideChainDenotes(31);
  }

  /** With validity set as written, storing the outcome of operation 31 of a
      fresh caching store also marks operation 32 up to date although it
      still holds `EXPR_NOT_READY`, so evaluating it computes nothing and
      reads `EXPR_NOT_READY`; the corrected write leaves it out of date.
      Once the left operand of the sum is stored that way, the sum fetches
      its right operand as `EXPR_NOT_READY` and fails with a bad argument
      naming it, where the uncached evaluation answers `-3`. */
  lemma WideListAsWritten(out: Result<Value>, R: Results, v: Value)
    requires Shaped(R, 34) && R.cache
    requires Cache.Valid(R, 31) && R.outcomes[31] == Ok(v)
    requires Cache.Valid(R, 32) && R.outcomes[32] == NotReady
    ensures var R1 := WriteAsWritten(Fresh(WideOps(), true), 31, out);
      && Cache.Valid(R1, 32) && Read(R1, 32) == NotReady
      && Eval(WideEx, [], 32, R1) == R1
    ensures !Cache.Valid(Write(Fresh(WideOps(), true), 31, out), 32)
    ensures EvalNode(Sample, [], WideOps()[33], Fetcher(WideEx, [], 33), R).0 == Err(OpBadArgument(32, ExprNotReady))
    ensures Denote(WideEx, [], 32) == Ok(Int(-2)) && Denote(WideEx, [], 33) == Ok(Int(-3))
  {
    var R0 := Fresh(WideOps(), true);
    WriteAsWrittenValidatesLater(R0, 31, out, 32);
    WideDenotes();
  }
}
