/** Expressions and their evaluation: the cached depth-first evaluator,
    the reference meaning it is checked against, and what a session of
    assignments and evaluations on one context returns. */
module Expressions {
  import opened Errors
  import opened Values
  import opened Extensions
  import opened Nodes
  import opened Bitmaps
  import opened Relations
  import opened Cache
  import opened Contexts

  /** `Ingredients`: the constant pool, the operation list (the last one is
      the root) and the extension pool. */
  datatype Ingredients = Ingredients(consts: seq<Value>, ops: seq<Node>, pool: Pool)

  /** An expression: its ingredients and how the store type applies the
      catalogue operators. */
  datatype Expression = Expression(sem: Semantics, data: Ingredients)

  /** Every ref points to an earlier operation and there is a root. */
  predicate Ordered(ex: Expression)
  {
    RefsBackward(ex.data.ops) && ex.data.ops != []
  }

  /** What a built expression guarantees: refs point backwards, every
      operation is reachable from the root, and the `k`-th variable reads
      slot `k`. */
  predicate Valid(ex: Expression)
  {
    Ordered(ex) && AllReachable(ex.data.ops) && VarsCanonical(ex.data.ops)
  }

  // ---------------------------------------------------------------------
  // Getters.

  /** What a `Const` fetches: its constant-pool entry. */
  function ConstGetter<S>(consts: seq<Value>): Getter<S>
  {
    (k: nat, s: S) => (if k < |consts| then Ok(consts[k]) else NotReady, s)
  }

  /** What a `Var` fetches: the evaluation of its substitution slot. */
  function SubstGetter<S>(subs: seq<Substitution>): Getter<S>
  {
    (k: nat, s: S) => (if k < |subs| then SubstEval(subs[k]) else NotReady, s)
  }

  // ---------------------------------------------------------------------
  // The cached evaluator.

  /** `eval(id, context)`: nothing when the result of `id` is up to date;
      otherwise `id` is evaluated with a getter that evaluates (and stores)
      each requested ref before reading its handle, and the outcome is
      written to the handle of `id`. */
  function Eval(ex: Expression, subs: seq<Substitution>, id: nat, R: Results): (r: Results)
    requires RefsBackward(ex.data.ops) && id < |ex.data.ops|
    ensures Cache.Valid(R, id) ==> r == R
    decreases id, 1
  {
    if Cache.Valid(R, id) then R
    else
      var st := EvalNode(ex.sem, ex.data.pool, ex.data.ops[id], Fetcher(ex, subs, id), R);
      Write(st.1, id, st.0)
  }

  /** The getter `eval` hands to operation `id`. */
  function Fetcher(ex: Expression, subs: seq<Substitution>, id: nat): Getter<Results>
    requires RefsBackward(ex.data.ops) && id < |ex.data.ops|
    decreases id, 0
  {
    match ex.data.ops[id]
    case Const(_) => ConstGetter(ex.data.consts)
    case Var(_, _) => SubstGetter(subs)
    case _ =>
      (r: nat, R: Results) =>
        if r < id then
          var R1 := Eval(ex, subs, r, R);
          (Read(R1, r), R1)
        else (NotReady, R)
  }

  /** `operator()(context)`: evaluates the root and reads its handle. */
  function Run(ex: Expression, c: Context): (r: (Result<Value>, Context))
    requires Ordered(ex)
    ensures r.1.subs == c.subs && r.1.byName == c.byName
    ensures r.0 == Read(r.1.results, Root(ex.data.ops))
  {
    var root := Root(ex.data.ops);
    var R := Eval(ex, c.subs, root, c.results);
    (Read(R, root), c.(results := R))
  }

  /** `context(cache)`. */
  function ContextFor(ex: Expression, cache: bool): (c: Context)
    requires Ordered(ex)
    ensures c == NewContext(ex.data.ops, cache)
  {
    NewContext(ex.data.ops, cache)
  }

  // ---------------------------------------------------------------------
  // The reference meaning.

  /** The result of operation `id` under the substitutions `subs`, each
      operation evaluated afresh. */
  function Denote(ex: Expression, subs: seq<Substitution>, id: nat): Result<Value>
    requires RefsBackward(ex.data.ops) && id < |ex.data.ops|
    decreases id, 1
  {
    EvalNode(ex.sem, ex.data.pool, ex.data.ops[id], Reference(ex, subs, id), ()).0
  }

  function Reference(ex: Expression, subs: seq<Substitution>, id: nat): Getter<()>
    requires RefsBackward(ex.data.ops) && id < |ex.data.ops|
    decreases id, 0
  {
    match ex.data.ops[id]
    case Const(_) => ConstGetter(ex.data.consts)
    case Var(_, _) => SubstGetter(subs)
    case _ => (r: nat, u: ()) => (if r < id then Denote(ex, subs, r) else NotReady, u)
  }

  /** Every up-to-date outcome of the store is the reference result. */
  predicate Coherent(ex: Expression, subs: seq<Substitution>, R: Results)
    requires RefsBackward(ex.data.ops)
  {
    forall i :: 0 <= i < |ex.data.ops| && Cache.Valid(R, i) ==> i < |R.outcomes| && R.outcomes[i] == Denote(ex, subs, i)
  }

  /** What evaluation keeps of a store `R0`: its shape, masks and mode,
      its coherence, and every up-to-date mark. */
  predicate Keeps(ex: Expression, subs: seq<Substitution>, R0: Results, R: Results)
    requires RefsBackward(ex.data.ops)
  {
    && Shaped(R, |ex.data.ops|) && Coherent(ex, subs, R)
    && R.masks == R0.masks && R.cache == R0.cache
    && forall i :: 0 <= i < |R0.valid| && Cache.Valid(R0, i) ==> Cache.Valid(R, i)
  }

  /** The cached evaluator computes the reference result and keeps the
      store coherent: the handle of `id` then reads the reference result,
      which is also its stored outcome, and with validity tracked `id` is up
      to date. */
  lemma {:induction false} EvalCorrect(ex: Expression, subs: seq<Substitution>, id: nat, R: Results)
    requires RefsBackward(ex.data.ops) && id < |ex.data.ops|
    requires Shaped(R, |ex.data.ops|) && Coherent(ex, subs, R)
    ensures Keeps(ex, subs, R, Eval(ex, subs, id, R))
    ensures Read(Eval(ex, subs, id, R), id) == Denote(ex, subs, id)
    ensures Eval(ex, subs, id, R).outcomes[id] == Denote(ex, subs, id)
    ensures R.cache ==> Cache.Valid(Eval(ex, subs, id, R), id)
    decreases id
  {
    if !Cache.Valid(R, id) {
      var n := ex.data.ops[id];
      var get := Fetcher(ex, subs, id);
      var ref := Reference(ex, subs, id);
      var inv := (t: Results) => Keeps(ex, subs, R, t);
      forall r, t | r in Refers(n) && inv(t)
        ensures get(r, t).0 == ref(r, ()).0 && inv(get(r, t).1)
      {
        if !IsLeaf(n) {
          DepsBackward(ex.data.ops, id);
          assert Deps(n) == Refers(n);
          var k :| 0 <= k < |Deps(n)| && Deps(n)[k] == r;
          EvalCorrect(ex, subs, r, t);
        }
      }
      assert Agree(get, ref, inv, Refers(n));
      EvalNodeSimulates(ex.sem, ex.data.pool, n, get, R, ref, inv);
    }
  }

  /** With validity tracking off, evaluation ignores whatever outcomes the
      store holds, recomputes the reference result, and leaves no operation
      up to date, so the next evaluation recomputes everything again. */
  lemma CacheOffRecomputes(ex: Expression, subs: seq<Substitution>, id: nat, R: Results)
    requires RefsBackward(ex.data.ops) && id < |ex.data.ops|
    requires Shaped(R, |ex.data.ops|) && !R.cache
    ensures Read(Eval(ex, subs, id, R), id) == Denote(ex, subs, id)
    ensures forall i :: !Cache.Valid(Eval(ex, subs, id, R), i)
  {
    EvalCorrect(ex, subs, id, R);
  }

  /** A `Const` evaluates to its constant-pool entry and a `Var` to the
      evaluation of its substitution slot, failures wrapped as a bad
      argument naming the slot. */
  lemma EvalLeaf(ex: Expression, subs: seq<Substitution>, id: nat, R: Results)
    requires RefsBackward(ex.data.ops) && id < |ex.data.ops| && IsLeaf(ex.data.ops[id])
    requires !Cache.Valid(R, id)
    ensures var n := ex.data.ops[id];
      var fetched := if n.Const? then (if n.sub < |ex.data.consts| then Ok(ex.data.consts[n.sub]) else NotReady)
        else (if n.sub < |subs| then SubstEval(subs[n.sub]) else NotReady);
      Eval(ex, subs, id, R) == Write(R, id, LeafEval(n.sub, fetched))
  {
  }

  /** A unary node evaluates (and stores) its argument, reads its handle,
      and applies the operator to the value or wraps the error. */
  lemma EvalUnary(ex: Expression, subs: seq<Substitution>, id: nat, R: Results)
    requires RefsBackward(ex.data.ops) && id < |ex.data.ops| && ex.data.ops[id].Unary?
    requires !Cache.Valid(R, id)
    ensures var n := ex.data.ops[id];
      n.arg < id &&
      var R1 := Eval(ex, subs, n.arg, R);
      var x := Read(R1, n.arg);
      Eval(ex, subs, id, R) == Write(R1, id, if x.Err? then Err(OpBadArgument(n.arg, x.error)) else Apply(ex.sem, n.ufn, [x.value]))
  {
    assert Deps(ex.data.ops[id])[0] < id;
  }

  /** A binary node evaluates its left operand first and its right operand
      only when the left one succeeded. */
  lemma EvalBinary(ex: Expression, subs: seq<Substitution>, id: nat, R: Results)
    requires RefsBackward(ex.data.ops) && id < |ex.data.ops| && ex.data.ops[id].Binary?
    requires !Cache.Valid(R, id)
    ensures var n := ex.data.ops[id];
      n.lhs < id && n.rhs < id &&
      var R1 := Eval(ex, subs, n.lhs, R);
      var x := Read(R1, n.lhs);
      var R2 := Eval(ex, subs, n.rhs, R1);
      var y := Read(R2, n.rhs);
      Eval(ex, subs, id, R) ==
        if x.Err? then Write(R1, id, Err(OpBadArgument(n.lhs, x.error)))
        else if y.Err? then Write(R2, id, Err(OpBadArgument(n.rhs, y.error)))
        else Write(R2, id, Apply(ex.sem, n.bfn, [x.value, y.value]))
  {
    assert Deps(ex.data.ops[id])[0] < id && Deps(ex.data.ops[id])[1] < id;
  }

  // ---------------------------------------------------------------------
  // Changing one substitution.

  /** Operation `i` does not depend on variable `k`, so its reference
      result does not change when only slot `k` does. */
  lemma {:induction false} DenoteIgnoresOtherSlots(ex: Expression, subs: seq<Substitution>, subs2: seq<Substitution>,
                                                  k: nat, i: nat)
    requires RefsBackward(ex.data.ops) && VarsCanonical(ex.data.ops) && i < |ex.data.ops|
    requires |subs2| == |subs| && forall j :: 0 <= j < |subs| && j != k ==> subs2[j] == subs[j]
    requires k < |VarIds(ex.data.ops)| && !Depends(ex.data.ops, i, VarIds(ex.data.ops)[k])
    ensures Denote(ex, subs2, i) == Denote(ex, subs, i)
    decreases i
  {
    var ops := ex.data.ops;
    var n := ops[i];
    var v := VarIds(ops)[k];
    if n.Var? {
      var m :| 0 <= m < |VarIds(ops)| && VarIds(ops)[m] == i;
      assert n.sub == m;
      if m == k {
        LeafDepends(ops, i, v);
        assert false;
      }
    } else if !n.Const? {
      var get := Reference(ex, subs2, i);
      var ref := Reference(ex, subs, i);
      var inv := (u: ()) => true;
      DepsBackward(ops, i);
      assert Deps(n) == Refers(n);
      OperatorDepends(ops, i, v);
      forall r, t | r in Refers(n) && inv(t)
        ensures get(r, t).0 == ref(r, ()).0 && inv(get(r, t).1)
      {
        var j :| 0 <= j < |Deps(n)| && Deps(n)[j] == r;
        DenoteIgnoresOtherSlots(ex, subs, subs2, k, r);
      }
      EvalNodeSimulates(ex.sem, ex.data.pool, n, get, (), ref, inv);
    }
  }
}
