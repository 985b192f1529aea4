/** Operation nodes: the closed set of node kinds, the ids each one refers
    to, the structural key the builder deduplicates by, and each kind's
    evaluation over a "fetch the result of a dependency" getter. */
module Nodes {
  import opened Errors
  import opened Ops
  import opened Values
  import opened Extensions

  /** One operation.  `Const` and `Var` refer to a slot of the constant pool
      or of the substitutions; the other kinds refer to earlier operations
      by id. */
  datatype Node =
    | Const(sub: nat)
    | Var(sub: nat, name: string)
    | Unary(ufn: UnaryFn, arg: nat)
    | Binary(bfn: BinaryFn, lhs: nat, rhs: nat)
    | Ternary(cond: nat, iftrue: nat, iffalse: nat)
    | Extension(name: string, fun: nat, args: seq<nat>)

  predicate IsLeaf(n: Node)
  {
    n.Const? || n.Var?
  }

  /** `refers`: the ids a node hands to its visitor, in order.  For `Const`
      and `Var` this is the pool slot, for the other kinds the argument
      operations. */
  function Refers(n: Node): seq<nat>
  {
    match n
    case Const(k) => [k]
    case Var(k, _) => [k]
    case Unary(_, a) => [a]
    case Binary(_, l, r) => [l, r]
    case Ternary(c, t, f) => [c, t, f]
    case Extension(_, _, args) => args
  }

  /** The operations a node depends on: none for a leaf, its refs otherwise. */
  function Deps(n: Node): seq<nat>
  {
    if IsLeaf(n) then [] else Refers(n)
  }

  // ---------------------------------------------------------------------
  // Deduplication key.

  /** The structural content the hash of each kind covers. */
  datatype Key =
    | KConst(sub: nat)
    | KVar(sub: nat, name: string)
    | KUnary(fn: Fn, arg: nat)
    | KBinary(fn: Fn, lhs: nat, rhs: nat)
    | KTernary(cond: nat, iftrue: nat, iffalse: nat)
    | KExtension(fun: nat, args: seq<nat>)

  function KeyOf(n: Node): Key
  {
    match n
    case Const(k) => KConst(k)
    case Var(k, name) => KVar(k, name)
    case Unary(fn, a) => KUnary(fn, a)
    case Binary(fn, l, r) => KBinary(fn, l, r)
    case Ternary(c, t, f) => KTernary(c, t, f)
    case Extension(_, fun, args) => KExtension(fun, args)
  }

  /** A node with the display name of an extension call erased. */
  function Anonymous(n: Node): Node
  {
    if n.Extension? then n.(name := "") else n
  }

  /** Two nodes share a key exactly when they are equal once the extension
      name is ignored: the key covers every field but that name. */
  lemma KeyIsContentButName(a: Node, b: Node)
    ensures KeyOf(a) == KeyOf(b) <==> Anonymous(a) == Anonymous(b)
    ensures !a.Extension? ==> (KeyOf(a) == KeyOf(b) <==> a == b)
  {
  }

  // ---------------------------------------------------------------------
  // Evaluation over a getter.

  /** `Const::eval`/`Var::eval` once the slot has been fetched: a failure is
      wrapped as a bad argument naming the slot, a value (null included) is
      passed on. */
  function LeafEval(sub: nat, fetched: Result<Value>): (r: Result<Value>)
    ensures r.Ok? <==> fetched.Ok?
    ensures r.Ok? ==> r.value == fetched.value
    ensures r.Err? ==> r.error == OpBadArgument(sub, fetched.error)
  {
    if fetched.Err? then Err(OpBadArgument(sub, fetched.error)) else Ok(fetched.value)
  }

  /** `eval` of each node kind.  `get` fetches the result of a ref (for a
      leaf: of its slot) and threads the getter's state `s`. */
  function EvalNode<S>(sem: Semantics, pool: Pool, n: Node, get: Getter<S>, s: S): (Result<Value>, S)
  {
    match n
    case Const(k) =>
      var x := get(k, s);
      (LeafEval(k, x.0), x.1)
    case Var(k, _) =>
      var x := get(k, s);
      (LeafEval(k, x.0), x.1)
    case Unary(fn, a) =>
      var x := get(a, s);
      if x.0.Err? then (Err(OpBadArgument(a, x.0.error)), x.1)
      else (Apply(sem, fn, [x.0.value]), x.1)
    case Binary(fn, l, r) =>
      var x := get(l, s);
      if x.0.Err? then (Err(OpBadArgument(l, x.0.error)), x.1)
      else
        var y := get(r, x.1);
        if y.0.Err? then (Err(OpBadArgument(r, y.0.error)), y.1)
        else (Apply(sem, fn, [x.0.value, y.0.value]), y.1)
    case Ternary(c, t, f) =>
      var x := get(c, s);
      if x.0.Err? then (Err(OpBadArgument(c, x.0.error)), x.1)
      else
        var cond := sem.truth(x.0.value);
        if cond.None? then (Err(OpTernaryBadCondition), x.1)
        else get(if cond.value then t else f, x.1)
    case Extension(_, fun, args) =>
      Invoke(pool, fun, args, get, s)
  }

  /** Deduplication is sound: nodes that share a key evaluate alike under
      every getter. */
  lemma SameKeySameEval<S>(sem: Semantics, pool: Pool, a: Node, b: Node, get: Getter<S>, s: S)
    requires KeyOf(a) == KeyOf(b)
    ensures EvalNode(sem, pool, a, get, s) == EvalNode(sem, pool, b, get, s)
  {
  }

  /** Getters that agree on a node's refs make the node evaluate alike; the
      first getter's state invariant `inv` is kept.  This is how the cached
      evaluator is compared with the reference semantics. */
  lemma EvalNodeSimulates<S(!new)>(sem: Semantics, pool: Pool, n: Node, get: Getter<S>, s: S, ref: Getter<()>, inv: S -> bool)
    requires inv(s)
    requires Agree(get, ref, inv, Refers(n))
    ensures EvalNode(sem, pool, n, get, s).0 == EvalNode(sem, pool, n, ref, ()).0
    ensures inv(EvalNode(sem, pool, n, get, s).1)
  {
    var refs := Refers(n);
    match n
    case Const(k) =>
      AgreeAt(get, ref, inv, refs, k, s);
    case Var(k, _) =>
      AgreeAt(get, ref, inv, refs, k, s);
    case Unary(_, a) =>
      AgreeAt(get, ref, inv, refs, a, s);
    case Binary(_, l, r) =>
      AgreeAt(get, ref, inv, refs, l, s);
      AgreeAt(get, ref, inv, refs, r, get(l, s).1);
      assert ref(l, ()).1 == ();
    case Ternary(c, t, f) =>
      AgreeAt(get, ref, inv, refs, c, s);
      AgreeAt(get, ref, inv, refs, t, get(c, s).1);
      AgreeAt(get, ref, inv, refs, f, get(c, s).1);
      assert ref(c, ()).1 == ();
    case Extension(_, fun, args) =>
      InvokeSimulates(pool, fun, args, get, s, ref, inv);
  }

  // ---------------------------------------------------------------------
  // What each kind fetches.

  /** A binary node fetches its left operand first; when that fails the
      right one is never fetched and the failure is wrapped. */
  lemma BinaryFetchOrder(sem: Semantics, pool: Pool, fn: BinaryFn, l: nat, r: nat,
                         results: nat -> Result<Value>, trace: seq<nat>)
    ensures var out := EvalNode(sem, pool, Binary(fn, l, r), Recording(results), trace);
      && (results(l).Err? ==> out == (Err(OpBadArgument(l, results(l).error)), trace + [l]))
      && (results(l).Ok? && results(r).Err? ==> out == (Err(OpBadArgument(r, results(r).error)), trace + [l, r]))
      && (results(l).Ok? && results(r).Ok? ==>
            out == (Apply(sem, fn, [results(l).value, results(r).value]), trace + [l, r]))
  {
    assert trace + [l] + [r] == trace + [l, r];
  }

  /** A ternary node fetches its condition, then only the branch the
      condition selects, and returns that branch's result as is. */
  lemma TernaryFetchesSelectedBranch(sem: Semantics, pool: Pool, c: nat, t: nat, f: nat,
                                     results: nat -> Result<Value>, trace: seq<nat>)
    ensures var out := EvalNode(sem, pool, Ternary(c, t, f), Recording(results), trace);
      && (results(c).Err? ==> out == (Err(OpBadArgument(c, results(c).error)), trace + [c]))
      && (results(c).Ok? && sem.truth(results(c).value).None? ==> out == (Err(OpTernaryBadCondition), trace + [c]))
      && (results(c).Ok? && sem.truth(results(c).value).Some? ==>
            var pick := if sem.truth(results(c).value).value then t else f;
            out == (results(pick), trace + [c, pick]))
  {
    if results(c).Ok? && sem.truth(results(c).value).Some? {
      var pick := if sem.truth(results(c).value).value then t else f;
      assert trace + [c] + [pick] == trace + [c, pick];
    }
  }

  /** A leaf fetches its slot once; a unary node its argument once. */
  lemma SingleFetch(sem: Semantics, pool: Pool, n: Node, results: nat -> Result<Value>, trace: seq<nat>)
    requires IsLeaf(n) || n.Unary?
    ensures var out := EvalNode(sem, pool, n, Recording(results), trace);
      var x := results(Refers(n)[0]);
      && out.1 == trace + Refers(n)
      && (IsLeaf(n) ==> out.0 == LeafEval(n.sub, x))
      && (n.Unary? && x.Err? ==> out.0 == Err(OpBadArgument(n.arg, x.error)))
      && (n.Unary? && x.Ok? ==> out.0 == Apply(sem, n.ufn, [x.value]))
  {
  }

  /** Whatever a node fetches is among its refs, in the order of a prefix of
      its refs for every kind but the ternary, which skips one branch. */
  lemma FetchesOnlyRefs(sem: Semantics, pool: Pool, n: Node, results: nat -> Result<Value>, trace: seq<nat>)
    ensures var out := EvalNode(sem, pool, n, Recording(results), trace);
      && |trace| <= |out.1|
      && out.1[..|trace|] == trace
      && forall j :: |trace| <= j < |out.1| ==> out.1[j] in Refers(n)
  {
    match n
    case Extension(_, fun, args) =>
      InvokeDispatches(pool, fun, args, Recording(results), trace);
      if fun < |pool| {
        ConsumeFetchesPrefix(pool[fun], args, [], results, trace);
        var out := Consume(pool[fun], args, [], Recording(results), trace);
        forall j | |trace| <= j < |out.1|
          ensures out.1[j] in args
        {
          assert out.1[j] == args[j - |trace|];
        }
      }
    case Ternary(c, t, f) =>
      TernaryFetchesSelectedBranch(sem, pool, c, t, f, results, trace);
    case Binary(fn, l, r) =>
      BinaryFetchOrder(sem, pool, fn, l, r, results, trace);
    case _ =>
      SingleFetch(sem, pool, n, results, trace);
  }

  // ---------------------------------------------------------------------
  // Operation lists.

  /** Every operator node refers only to operations before it. */
  predicate RefsBackward(ops: seq<Node>)
  {
    forall i, k :: 0 <= i < |ops| && 0 <= k < |Deps(ops[i])| ==> Deps(ops[i])[k] < i
  }

  /** Positions of the `Var` nodes, in list order. */
  function VarIds(ops: seq<Node>): (r: seq<nat>)
    ensures forall k :: 0 <= k < |r| ==> r[k] < |ops| && ops[r[k]].Var?
    ensures forall k, m :: 0 <= k < m < |r| ==> r[k] < r[m]
    ensures forall i :: 0 <= i < |ops| && ops[i].Var? ==> i in r
  {
    if ops == [] then []
    else
      var init := ops[..|ops| - 1];
      assert forall i :: 0 <= i < |init| ==> init[i] == ops[i];
      VarIds(init) + if ops[|ops| - 1].Var? then [|ops| - 1] else []
  }

  /** The `k`-th `Var` node of the list reads substitution slot `k`. */
  predicate VarsCanonical(ops: seq<Node>)
  {
    forall k :: 0 <= k < |VarIds(ops)| ==> ops[VarIds(ops)[k]].sub == k
  }
}
