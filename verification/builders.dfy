/** The expression builder: an append-only operation list where a node
    equal (by its deduplication key) to one already added yields the
    existing id, constants pushed to a pool one per new `Const` node, and
    variables numbered in the order they are added. */
module Builders {
  import opened Errors
  import opened Ops
  import opened Values
  import opened Extensions
  import opened Nodes

  /** `Builder`: the ingredients (constants, operations, extension pool),
      the key → id map of added nodes, the variable counter and the error
      deferred by the constructor from raw ingredients. */
  datatype Builder = Builder(
    consts: seq<Value>,
    ops: seq<Node>,
    pool: Pool,
    added: map<Key, nat>,
    nextvar: nat,
    deferred: Option<Error>)

  /** The key map names exactly the nodes of the list, each under its own
      key: no two nodes share a key. */
  predicate Indexed(b: Builder)
  {
    && (forall key :: key in b.added ==> b.added[key] < |b.ops| && KeyOf(b.ops[b.added[key]]) == key)
    && (forall i :: 0 <= i < |b.ops| ==> KeyOf(b.ops[i]) in b.added && b.added[KeyOf(b.ops[i])] == i)
  }

  /** Every `Const` node names an entry of the constant pool. */
  predicate ConstsInRange(b: Builder)
  {
    forall i :: 0 <= i < |b.ops| && b.ops[i].Const? ==> b.ops[i].sub < |b.consts|
  }

  /** What every builder made through the public operations satisfies. */
  predicate Good(b: Builder)
  {
    && b.deferred.None?
    && RefsBackward(b.ops)
    && Indexed(b)
    && VarsCanonical(b.ops) && b.nextvar == |VarIds(b.ops)|
    && ConstsInRange(b)
  }

  /** `Builder(extensions)`. */
  function NewBuilder(pool: Pool): (b: Builder)
    ensures Good(b) && b.ops == [] && b.consts == [] && b.pool == pool
  {
    Builder([], [], pool, map[], 0, None)
  }

  // ---------------------------------------------------------------------
  // append.

  /** `append(op)`: `try_emplace` of the node's key with the current list
      length; the node is pushed only when its key was new. */
  function Append(b: Builder, n: Node): (r: (Builder, nat))
    ensures r.0.consts == b.consts && r.0.pool == b.pool && r.0.nextvar == b.nextvar && r.0.deferred == b.deferred
  {
    var key := KeyOf(n);
    if key in b.added then (b, b.added[key])
    else (b.(ops := b.ops + [n], added := b.added[key := |b.ops|]), |b.ops|)
  }

  /** A node whose key no node of the list has gets id = the list length
      before the call and is pushed; otherwise the id of the node with that
      key comes back and nothing changes.  Either way the id names a node
      equal to `n` up to the extension display name. */
  lemma AppendDedups(b: Builder, n: Node)
    requires Indexed(b)
    ensures var r := Append(b, n);
      && Indexed(r.0) && r.1 < |r.0.ops| && KeyOf(r.0.ops[r.1]) == KeyOf(n)
      && ((exists i :: 0 <= i < |b.ops| && KeyOf(b.ops[i]) == KeyOf(n)) <==> r.0 == b)
      && (r.0 != b ==> r.0.ops == b.ops + [n] && r.1 == |b.ops|)
  {
    var r := Append(b, n);
    if KeyOf(n) !in b.added {
      forall i | 0 <= i < |r.0.ops|
        ensures KeyOf(r.0.ops[i]) in r.0.added && r.0.added[KeyOf(r.0.ops[i])] == i
      {
        if i < |b.ops| {
          assert r.0.ops[i] == b.ops[i];
        }
      }
      assert r.0 != b by {
        assert |r.0.ops| != |b.ops|;
      }
    }
  }

  /** Pushing a node that is not a `Var` keeps the list's variables. */
  lemma VarIdsPushNonVar(ops: seq<Node>, n: Node)
    requires !n.Var?
    ensures VarIds(ops + [n]) == VarIds(ops)
  {
    assert (ops + [n])[..|ops|] == ops;
  }

  /** Pushing a `Var` adds its position to the list's variables. */
  lemma VarIdsPushVar(ops: seq<Node>, n: Node)
    requires n.Var?
    ensures VarIds(ops + [n]) == VarIds(ops) + [|ops|]
  {
    assert (ops + [n])[..|ops|] == ops;
  }

  /** A pushed node whose dependencies already exist keeps refs backward. */
  lemma RefsBackwardPush(ops: seq<Node>, n: Node)
    requires RefsBackward(ops)
    requires forall k :: 0 <= k < |Deps(n)| ==> Deps(n)[k] < |ops|
    ensures RefsBackward(ops + [n])
  {
    assert forall i :: 0 <= i < |ops| ==> (ops + [n])[i] == ops[i];
  }

  /** A pushed node that is not a variable, or is the next variable, keeps
      the variables canonical. */
  lemma VarsCanonicalPush(ops: seq<Node>, n: Node)
    requires VarsCanonical(ops)
    requires n.Var? ==> n.sub == |VarIds(ops)|
    ensures VarsCanonical(ops + [n])
    ensures |VarIds(ops + [n])| == |VarIds(ops)| + (if n.Var? then 1 else 0)
  {
    var ops' := ops + [n];
    assert forall i :: 0 <= i < |ops| ==> ops'[i] == ops[i];
    if n.Var? {
      VarIdsPushVar(ops, n);
    } else {
      VarIdsPushNonVar(ops, n);
    }
  }

  /** Under an exact key map, a key no node carries is not in the map. */
  lemma KeyAbsent(b: Builder, key: Key)
    requires Indexed(b)
    requires forall i :: 0 <= i < |b.ops| ==> KeyOf(b.ops[i]) != key
    ensures key !in b.added
  {
  }

  /** Pushing a node under a new key keeps the key map exact, whatever
      happens to the constant pool and variable counter. */
  lemma PushKeepsIndexed(b: Builder, n: Node, consts: seq<Value>, nextvar: nat)
    requires Indexed(b) && KeyOf(n) !in b.added
    ensures Indexed(Append(b, n).0.(consts := consts, nextvar := nextvar))
  {
    AppendDedups(b, n);
  }

  /** Pushing a node under a new key, with the constant pool and variable
      counter moved on to match, keeps a builder good. */
  lemma PushKeepsGood(b: Builder, n: Node, consts: seq<Value>, nextvar: nat)
    requires Good(b) && KeyOf(n) !in b.added
    requires forall k :: 0 <= k < |Deps(n)| ==> Deps(n)[k] < |b.ops|
    requires n.Var? ==> n.sub == b.nextvar
    requires nextvar == b.nextvar + (if n.Var? then 1 else 0)
    requires b.consts <= consts && (n.Const? ==> n.sub < |consts|)
    ensures Good(Append(b, n).0.(consts := consts, nextvar := nextvar))
  {
    var b' := Append(b, n).0.(consts := consts, nextvar := nextvar);
    assert b'.ops == b.ops + [n] && b'.deferred.None?;
    PushKeepsIndexed(b, n, consts, nextvar);
    RefsBackwardPush(b.ops, n);
    VarsCanonicalPush(b.ops, n);
    ConstsInRangePush(b.ops, n, |b.consts|, |consts|);
  }

  /** Pushing a node keeps every `Const` inside a pool that does not
      shrink, when the pushed node's own slot is inside the new pool. */
  lemma ConstsInRangePush(ops: seq<Node>, n: Node, size: nat, size': nat)
    requires forall i :: 0 <= i < |ops| && ops[i].Const? ==> ops[i].sub < size
    requires size <= size' && (n.Const? ==> n.sub < size')
    ensures forall i :: 0 <= i < |ops + [n]| && (ops + [n])[i].Const? ==> (ops + [n])[i].sub < size'
  {
    assert forall i :: 0 <= i < |ops| ==> (ops + [n])[i] == ops[i];
  }

  // ---------------------------------------------------------------------
  // constant and var.

  /** `constant(value)`: appends `Const(pool size)` and, when that node is
      the one just pushed, pushes the value onto the constant pool. */
  function Constant(b: Builder, v: Value): (r: (Builder, Result<nat>))
    ensures r.1.Ok?
  {
    var x := Append(b, Const(|b.consts|));
    if x.1 == |x.0.ops| - 1 then (x.0.(consts := x.0.consts + [v]), Ok(x.1))
    else (x.0, Ok(x.1))
  }

  /** On a good builder a constant is always a new node, its pool index is
      the position its value is pushed to, and the builder stays good. */
  lemma ConstantPushes(b: Builder, v: Value)
    requires Good(b)
    ensures var r := Constant(b, v);
      && Good(r.0) && r.1 == Ok(|b.ops|)
      && r.0.ops == b.ops + [Const(|b.consts|)] && r.0.consts == b.consts + [v]
      && r.0.consts[r.0.ops[r.1.value].sub] == v
  {
    var n := Const(|b.consts|);
    KeyAbsent(b, KeyOf(n));
    var x := Append(b, n);
    assert x.1 == |b.ops| && x.0.ops == b.ops + [n] && x.1 == |x.0.ops| - 1;
    assert Constant(b, v) == (x.0.(consts := b.consts + [v]), Ok(x.1));
    PushKeepsGood(b, n, b.consts + [v], b.nextvar);
  }

  /** `var(name)`: appends `Var(counter, name)` and, when that node is the
      one just pushed, advances the counter. */
  function Variable(b: Builder, name: string): (r: (Builder, Result<nat>))
    ensures r.1.Ok?
  {
    var x := Append(b, Var(b.nextvar, name));
    if x.1 == |x.0.ops| - 1 then (x.0.(nextvar := x.0.nextvar + 1), Ok(x.1))
    else (x.0, Ok(x.1))
  }

  /** On a good builder every variable is a new node (even under a name
      already used), numbered by how many variables came before it, and
      the builder stays good. */
  lemma VariableNumbers(b: Builder, name: string)
    requires Good(b)
    ensures var r := Variable(b, name);
      && Good(r.0) && r.1 == Ok(|b.ops|)
      && r.0.ops == b.ops + [Var(|VarIds(b.ops)|, name)]
      && r.0.nextvar == b.nextvar + 1
  {
    var n := Var(b.nextvar, name);
    KeyAbsent(b, KeyOf(n));
    var x := Append(b, n);
    assert x.1 == |b.ops| && x.0.ops == b.ops + [n] && x.1 == |x.0.ops| - 1;
    assert Variable(b, name) == (x.0.(nextvar := b.nextvar + 1), Ok(x.1));
    PushKeepsGood(b, n, b.consts, b.nextvar + 1);
  }

  // ---------------------------------------------------------------------
  // op, branch, fun.

  /** `detail::CheckRef` over the argument ids: the first id that does not
      name an existing operation. */
  function CheckRefs(size: nat, ids: seq<nat>): (r: Option<Error>)
    ensures r.None? <==> forall k :: 0 <= k < |ids| ==> ids[k] < size
    ensures r.Some? ==> exists k :: 0 <= k < |ids| && ids[k] >= size && r.value == BuilderRefToUnknown(ids[k])
                          && forall j :: 0 <= j < k ==> ids[j] < size
  {
    if ids == [] then None
    else if ids[0] >= size then Some(BuilderRefToUnknown(ids[0]))
    else
      var r := CheckRefs(size, ids[1..]);
      assert forall k :: 1 <= k < |ids| ==> ids[1..][k - 1] == ids[k];
      r
  }

  /** Appending an operator node whose refs all name existing operations
      keeps a builder good. */
  lemma AppendOperatorKeepsGood(b: Builder, n: Node)
    requires Good(b) && !IsLeaf(n)
    requires forall k :: 0 <= k < |Refers(n)| ==> Refers(n)[k] < |b.ops|
    ensures Good(Append(b, n).0)
  {
    AppendDedups(b, n);
    if KeyOf(n) !in b.added {
      PushKeepsGood(b, n, b.consts, b.nextvar);
    }
  }

  /** `op<Fn>(ids...)`: a unary or binary node of the operator, after the
      ids are checked. */
  function Op(b: Builder, fn: Fn, ids: seq<nat>): (r: (Builder, Result<nat>))
    requires |ids| == Arity(fn)
    ensures r.1.Err? <==> exists k :: 0 <= k < |ids| && ids[k] >= |b.ops|
    ensures r.1.Err? ==> r.0 == b && r.1.error == CheckRefs(|b.ops|, ids).value
  {
    match CheckRefs(|b.ops|, ids)
    case Some(e) => (b, Err(e))
    case None =>
      var n := if Arity(fn) == 1 then Unary(fn, ids[0]) else Binary(fn, ids[0], ids[1]);
      var x := Append(b, n);
      (x.0, Ok(x.1))
  }

  /** A successful `op` on a good builder keeps it good and names a node
      of that operator over exactly those arguments. */
  lemma OpAppends(b: Builder, fn: Fn, ids: seq<nat>)
    requires Good(b) && |ids| == Arity(fn)
    requires forall k :: 0 <= k < |ids| ==> ids[k] < |b.ops|
    ensures var r := Op(b, fn, ids);
      && Good(r.0) && r.1.Ok? && r.1.value < |r.0.ops|
      && KeyOf(r.0.ops[r.1.value]) == (if Arity(fn) == 1 then KUnary(fn, ids[0]) else KBinary(fn, ids[0], ids[1]))
  {
    var n := if Arity(fn) == 1 then Unary(fn, ids[0]) else Binary(fn, ids[0], ids[1]);
    AppendOperatorKeepsGood(b, n);
    AppendDedups(b, n);
  }

  /** `branch(cond, iftrue, iffalse)`. */
  function Branch(b: Builder, c: nat, t: nat, f: nat): (r: (Builder, Result<nat>))
    ensures r.1.Err? <==> c >= |b.ops| || t >= |b.ops| || f >= |b.ops|
    ensures r.1.Err? ==> r.0 == b && r.1.error == BuilderRefToUnknown(if c >= |b.ops| then c else if t >= |b.ops| then t else f)
  {
    var ids := [c, t, f];
    assert ids[0] == c && ids[1] == t && ids[2] == f;
    match CheckRefs(|b.ops|, ids)
    case Some(e) => (b, Err(e))
    case None =>
      var x := Append(b, Ternary(c, t, f));
      (x.0, Ok(x.1))
  }

  lemma BranchAppends(b: Builder, c: nat, t: nat, f: nat)
    requires Good(b) && c < |b.ops| && t < |b.ops| && f < |b.ops|
    ensures var r := Branch(b, c, t, f);
      && Good(r.0) && r.1.Ok? && r.1.value < |r.0.ops|
      && KeyOf(r.0.ops[r.1.value]) == KTernary(c, t, f)
  {
    var n := Ternary(c, t, f);
    assert Refers(n) == [c, t, f];
    AppendOperatorKeepsGood(b, n);
    AppendDedups(b, n);
    assert CheckRefs(|b.ops|, [c, t, f]).None?;
    assert Branch(b, c, t, f) == (Append(b, n).0, Ok(Append(b, n).1));
  }

  /** `fun(name, ids...)` and `fun(name, vector)`: the ids are checked
      first, then the name is looked up in the pool. */
  function Fun(b: Builder, name: string, ids: seq<nat>): (r: (Builder, Result<nat>))
    ensures r.1.Err? ==> r.0 == b
    ensures CheckRefs(|b.ops|, ids).Some? ==> r.1 == Err(CheckRefs(|b.ops|, ids).value)
    ensures CheckRefs(|b.ops|, ids).None? && Lookup(b.pool, name).Err? ==> r.1 == Err(ExprBadFunction(name))
  {
    match CheckRefs(|b.ops|, ids)
    case Some(e) => (b, Err(e))
    case None =>
      match Lookup(b.pool, name)
      case Err(e) => (b, Err(e))
      case Ok(fun) =>
        var x := Append(b, Extension(name, fun, ids));
        (x.0, Ok(x.1))
  }

  /** A name of the pool with arguments that exist: the node calls the
      function the name is registered under, on exactly those arguments. */
  lemma FunAppends(b: Builder, name: string, ids: seq<nat>)
    requires Good(b) && forall k :: 0 <= k < |ids| ==> ids[k] < |b.ops|
    requires exists i :: 0 <= i < |b.pool| && b.pool[i].name == name
    ensures var r := Fun(b, name, ids);
      && Good(r.0) && r.1.Ok? && r.1.value < |r.0.ops|
      && KeyOf(r.0.ops[r.1.value]) == KExtension(Lookup(b.pool, name).value, ids)
  {
    LookupFindsFirst(b.pool, name);
    var n := Extension(name, Lookup(b.pool, name).value, ids);
    AppendOperatorKeepsGood(b, n);
    AppendDedups(b, n);
  }
}
