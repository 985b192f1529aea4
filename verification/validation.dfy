/** Building an expression: the depth-first visit from the root that checks
    every reachable operation, the dangling-operation check, and the
    builder made from raw ingredients, whose constructor scans the list and
    defers the first error it finds. */
module Validation {
  import opened Errors
  import opened Values
  import opened Extensions
  import opened Nodes
  import opened Bitmaps
  import opened Relations
  import opened Builders
  import Ops
  import Contexts
  import Expressions
  import Sessions

  // ---------------------------------------------------------------------
  // visit.

  /** A leaf's slot lies inside its pool: the constant pool for `Const`,
      the variable count for `Var`.  Operator nodes have no slot. */
  predicate LeafOk(n: Node, nconsts: nat, nvars: nat)
  {
    (n.Const? ==> n.sub < nconsts) && (n.Var? ==> n.sub < nvars)
  }

  /** `visit(id, visited)`: an id past the list is unknown; otherwise the
      operation is marked visited, a leaf's slot is checked against its
      pool, and an operator's refs are checked to point backwards and are
      visited in order, stopping at the first error. */
  function Visit(ops: seq<Node>, nconsts: nat, nvars: nat, id: nat, visited: Bitmap): (r: (Result<()>, Bitmap))
    requires |visited| == |ops|
    ensures |r.1| == |ops|
    ensures forall j :: 0 <= j < |ops| && visited[j] ==> r.1[j]
    ensures id < |ops| ==> r.1[id]
    decreases id, 1
  {
    if id >= |ops| then (Err(BuilderRefToUnknown(id)), visited)
    else
      var v := Set(visited, id);
      match ops[id]
      case Const(sub) => (if sub >= nconsts then Err(BuilderBadSubstitution(id, sub)) else Ok(()), v)
      case Var(sub, _) => (if sub >= nvars then Err(BuilderBadSubstitution(id, sub)) else Ok(()), v)
      case _ => VisitRefs(ops, nconsts, nvars, id, Refers(ops[id]), v)
  }

  /** The loop over an operator's refs inside `visit`. */
  function VisitRefs(ops: seq<Node>, nconsts: nat, nvars: nat, id: nat, refs: seq<nat>, visited: Bitmap): (r: (Result<()>, Bitmap))
    requires |visited| == |ops|
    ensures |r.1| == |ops|
    ensures forall j :: 0 <= j < |ops| && visited[j] ==> r.1[j]
    decreases id, 0, |refs|
  {
    if refs == [] then (Ok(()), visited)
    else if refs[0] >= id then (Err(BuilderBadArgument(id, refs[0])), visited)
    else
      var x := Visit(ops, nconsts, nvars, refs[0], visited);
      if x.0.Err? then x else VisitRefs(ops, nconsts, nvars, id, refs[1..], x.1)
  }

  /** Some ref of the list reaches `j`. */
  predicate RefsReach(ops: seq<Node>, refs: seq<nat>, j: nat)
    requires RefsBackward(ops) && forall k :: 0 <= k < |refs| ==> refs[k] < |ops|
  {
    exists k :: 0 <= k < |refs| && Reaches(ops, refs[k], j)
  }

  /** On a backward-pointing list the visit from `id` succeeds exactly
      when every leaf reachable from `id` is inside its pool; it then marks
      exactly what is reachable, and otherwise it reports a reachable leaf
      outside its pool. */
  lemma {:induction false} VisitCorrect(ops: seq<Node>, nconsts: nat, nvars: nat, id: nat, visited: Bitmap)
    requires RefsBackward(ops) && id < |ops| && |visited| == |ops|
    ensures var r := Visit(ops, nconsts, nvars, id, visited);
      && (r.0.Ok? <==> forall j :: 0 <= j < |ops| && Reaches(ops, id, j) ==> LeafOk(ops[j], nconsts, nvars))
      && (r.0.Ok? ==> forall j :: 0 <= j < |ops| ==> (r.1[j] <==> visited[j] || Reaches(ops, id, j)))
      && (r.0.Err? ==> exists j :: 0 <= j < |ops| && Reaches(ops, id, j) && !LeafOk(ops[j], nconsts, nvars)
                                   && r.0.error == BuilderBadSubstitution(j, ops[j].sub))
    decreases id, 1
  {
    var v := Set(visited, id);
    if IsLeaf(ops[id]) {
      forall j | 0 <= j < |ops|
        ensures Reaches(ops, id, j) <==> j == id
      {
        LeafDepends(ops, id, j);
      }
    } else {
      var refs := Refers(ops[id]);
      assert Deps(ops[id]) == refs;
      DepsBackward(ops, id);
      VisitRefsCorrect(ops, nconsts, nvars, id, refs, v);
      forall j | 0 <= j < |ops|
        ensures Reaches(ops, id, j) <==> j == id || RefsReach(ops, refs, j)
      {
        AnyReachesExists(ops, id, refs, j);
      }
    }
  }

  /** The loop over refs succeeds exactly when every leaf some ref reaches
      is inside its pool, then marks what the refs reach. */
  lemma {:induction false} VisitRefsCorrect(ops: seq<Node>, nconsts: nat, nvars: nat, id: nat, refs: seq<nat>, visited: Bitmap)
    requires RefsBackward(ops) && id < |ops| && |visited| == |ops|
    requires forall k :: 0 <= k < |refs| ==> refs[k] < id
    ensures var r := VisitRefs(ops, nconsts, nvars, id, refs, visited);
      && (r.0.Ok? <==> forall j :: 0 <= j < |ops| && RefsReach(ops, refs, j) ==> LeafOk(ops[j], nconsts, nvars))
      && (r.0.Ok? ==> forall j :: 0 <= j < |ops| ==> (r.1[j] <==> visited[j] || RefsReach(ops, refs, j)))
      && (r.0.Err? ==> exists j :: 0 <= j < |ops| && RefsReach(ops, refs, j) && !LeafOk(ops[j], nconsts, nvars)
                                   && r.0.error == BuilderBadSubstitution(j, ops[j].sub))
    decreases id, 0, |refs|
  {
    if refs != [] {
      var x := Visit(ops, nconsts, nvars, refs[0], visited);
      VisitCorrect(ops, nconsts, nvars, refs[0], visited);
      var rest := refs[1..];
      assert forall k :: 1 <= k < |refs| ==> rest[k - 1] == refs[k];
      forall j | 0 <= j < |ops|
        ensures RefsReach(ops, refs, j) <==> Reaches(ops, refs[0], j) || RefsReach(ops, rest, j)
      {
        if RefsReach(ops, refs, j) {
          var k :| 0 <= k < |refs| && Reaches(ops, refs[k], j);
          if k > 0 {
            assert rest[k - 1] == refs[k];
          }
        }
        if RefsReach(ops, rest, j) {
          var k :| 0 <= k < |rest| && Reaches(ops, rest[k], j);
          assert refs[k + 1] == rest[k];
        }
      }
      if x.0.Ok? {
        VisitRefsCorrect(ops, nconsts, nvars, id, rest, x.1);
      }
    }
  }

  // ---------------------------------------------------------------------
  // build.

  /** The first position at or after `from` whose bit is clear. */
  function FirstClear(b: Bitmap, from: nat): (r: Option<nat>)
    requires from <= |b|
    ensures r.None? <==> forall i :: from <= i < |b| ==> b[i]
    ensures r.Some? ==> from <= r.value < |b| && !b[r.value] && forall i :: from <= i < r.value ==> b[i]
    decreases |b| - from
  {
    if from == |b| then None
    else if !b[from] then Some(from)
    else FirstClear(b, from + 1)
  }

  /** `build()`: an empty list, then a deferred error, then the visit from
      the root, then the first operation the visit did not mark. */
  function Build(b: Builder, sem: Semantics): (r: Result<Expressions.Expression>)
    ensures b.ops == [] ==> r == Err(BuilderEmpty)
    ensures b.ops != [] && b.deferred.Some? ==> r == Err(b.deferred.value)
    ensures r.Ok? ==> r.value == Expressions.Expression(sem, Expressions.Ingredients(b.consts, b.ops, b.pool))
  {
    if b.ops == [] then Err(BuilderEmpty)
    else if b.deferred.Some? then Err(b.deferred.value)
    else
      var x := Visit(b.ops, |b.consts|, b.nextvar, |b.ops| - 1, New(|b.ops|, false));
      if x.0.Err? then Err(x.0.error)
      else
        match FirstClear(x.1, 0)
        case Some(i) => Err(BuilderDangling(i))
        case None => Ok(Expressions.Expression(sem, Expressions.Ingredients(b.consts, b.ops, b.pool)))
  }

  /** Every leaf reachable from the root is inside its pool. */
  predicate LeavesOk(b: Builder)
    requires RefsBackward(b.ops) && b.ops != []
  {
    forall j :: 0 <= j < |b.ops| && Reaches(b.ops, Root(b.ops), j) ==> LeafOk(b.ops[j], |b.consts|, b.nextvar)
  }

  /** On a non-empty backward-pointing list with nothing deferred, `build`
      succeeds exactly when every reachable leaf is inside its pool and
      nothing dangles; a dangling report names the first operation the
      root does not reach, and the expression it returns is ordered with
      nothing dangling. */
  lemma BuildChecks(b: Builder, sem: Semantics)
    requires b.deferred.None? && RefsBackward(b.ops) && b.ops != []
    ensures Build(b, sem).Ok? <==> LeavesOk(b) && AllReachable(b.ops)
    ensures Build(b, sem).Ok? ==> Expressions.Ordered(Build(b, sem).value) && AllReachable(b.ops)
    ensures LeavesOk(b) && !AllReachable(b.ops) ==>
      exists i :: 0 <= i < |b.ops| && Build(b, sem) == Err(BuilderDangling(i))
        && !Reaches(b.ops, Root(b.ops), i) && forall j :: 0 <= j < i ==> Reaches(b.ops, Root(b.ops), j)
    ensures !LeavesOk(b) ==>
      exists j :: 0 <= j < |b.ops| && Reaches(b.ops, Root(b.ops), j) && !LeafOk(b.ops[j], |b.consts|, b.nextvar)
        && Build(b, sem) == Err(BuilderBadSubstitution(j, b.ops[j].sub))
  {
    var root := Root(b.ops);
    var none := New(|b.ops|, false);
    VisitCorrect(b.ops, |b.consts|, b.nextvar, root, none);
  }

  /** On a good builder every leaf is inside its pool, so `build` succeeds
      exactly when nothing dangles, and what it returns is a valid
      expression: refs backward, all reachable, variables canonical. */
  lemma BuildGood(b: Builder, sem: Semantics)
    requires Good(b) && b.ops != []
    ensures Build(b, sem).Ok? <==> AllReachable(b.ops)
    ensures Build(b, sem).Ok? ==> Expressions.Valid(Build(b, sem).value)
  {
    forall j | 0 <= j < |b.ops|
      ensures LeafOk(b.ops[j], |b.consts|, b.nextvar)
    {
      if b.ops[j].Var? {
        var k :| 0 <= k < |VarIds(b.ops)| && VarIds(b.ops)[k] == j;
      }
    }
    BuildChecks(b, sem);
  }

  /** Whatever a good builder builds evaluates the same with the cache on
      or off, and as the reference replay of the session. */
  lemma BuiltIsTransparent(b: Builder, sem: Semantics, steps: seq<Sessions.Step>)
    requires Good(b) && Build(b, sem).Ok?
    ensures var ex := Build(b, sem).value;
      && Sessions.Session(ex, Expressions.ContextFor(ex, true), steps) == Sessions.Session(ex, Expressions.ContextFor(ex, false), steps)
      && Sessions.Session(ex, Expressions.ContextFor(ex, true), steps) == Sessions.Replay(ex, Contexts.SlotsOf(ex.data.ops), steps)
  {
    BuildGood(b, sem);
    Sessions.CacheIsTransparent(Build(b, sem).value, steps);
  }

  // ---------------------------------------------------------------------
  // The builder from raw ingredients.

  /** Every `Const` of the list names an entry of a pool of `n` constants. */
  predicate ConstsBelow(ops: seq<Node>, n: nat)
  {
    forall i :: 0 <= i < |ops| && ops[i].Const? ==> ops[i].sub < n
  }

  /** The first ref at or past `current`, reported against `current`. */
  function ForwardRef(current: nat, refs: seq<nat>): (r: Option<Error>)
    ensures r.None? <==> forall k :: 0 <= k < |refs| ==> refs[k] < current
    ensures r.Some? ==> exists k :: 0 <= k < |refs| && refs[k] >= current && r.value == BuilderBadArgument(current, refs[k])
  {
    if refs == [] then None
    else if refs[0] >= current then Some(BuilderBadArgument(current, refs[0]))
    else
      var r := ForwardRef(current, refs[1..]);
      assert forall k :: 1 <= k < |refs| ==> refs[1..][k - 1] == refs[k];
      r
  }

  /** What the constructor's scan finds wrong with the operation at
      `current`, given the number of variables before it.  `fixed` adds the
      check that the operation's variable index is that number. */
  function NodeError(nconsts: nat, n: Node, current: nat, nextvar: nat, fixed: bool): (r: Option<Error>)
    ensures r.None? <==>
      && (n.Const? ==> n.sub < nconsts)
      && (fixed && n.Var? ==> n.sub == nextvar)
      && forall k :: 0 <= k < |Deps(n)| ==> Deps(n)[k] < current
  {
    match n
    case Const(cn) => if cn >= nconsts then Some(BuilderBadSubstitution(current, cn)) else None
    case Var(sub, _) => if fixed && sub != nextvar then Some(BuilderBadSubstitution(current, sub)) else None
    case _ =>
      assert Deps(n) == Refers(n);
      ForwardRef(current, Refers(n))
  }

  /** The constructor's loop from `current`: it counts variables and stops
      at the first operation with an error, answering the variable count
      and that error. */
  function Scan(nconsts: nat, ops: seq<Node>, current: nat, nextvar: nat, fixed: bool): (r: (nat, Option<Error>))
    requires current <= |ops|
    decreases |ops| - current
  {
    if current == |ops| then (nextvar, None)
    else
      var n := ops[current];
      var e := NodeError(nconsts, n, current, nextvar, fixed);
      var count := if n.Var? then nextvar + 1 else nextvar;
      if e.Some? then (count, e) else Scan(nconsts, ops, current + 1, count, fixed)
  }

  /** `Builder(consts, ops, extensions)`: the key map starts empty and the
      scan's error, if any, is deferred to `status()` and `build()`.  With
      `fixed` the scan also checks variable indices. */
  function FromIngredientsWith(consts: seq<Value>, ops: seq<Node>, pool: Pool, fixed: bool): (b: Builder)
    ensures b.consts == consts && b.ops == ops && b.pool == pool && b.added == map[]
  {
    var s := Scan(|consts|, ops, 0, 0, fixed);
    Builder(consts, ops, pool, map[], s.0, s.1)
  }

  /** The constructor as written. */
  function FromIngredients(consts: seq<Value>, ops: seq<Node>, pool: Pool): (b: Builder)
    ensures b.consts == consts && b.ops == ops && b.pool == pool && b.added == map[]
  {
    FromIngredientsWith(consts, ops, pool, false)
  }

  /** The constructor with the variable-index check it lacks. */
  function FromIngredientsFixed(consts: seq<Value>, ops: seq<Node>, pool: Pool): (b: Builder)
    ensures b.consts == consts && b.ops == ops && b.pool == pool && b.added == map[]
  {
    FromIngredientsWith(consts, ops, pool, true)
  }

  /** `status()`. */
  function Status(b: Builder): (r: Result<()>)
    ensures r.Ok? <==> b.deferred.None?
    ensures r.Err? ==> r.error == b.deferred.value
  {
    match b.deferred
    case None => Ok(())
    case Some(e) => Err(e)
  }

  /** The prefix `ops[..c + 1]` is `ops[..c]` with `ops[c]` pushed. */
  lemma PrefixStep(ops: seq<Node>, c: nat)
    requires c < |ops|
    ensures ops[..c + 1] == ops[..c] + [ops[c]]
  {
  }

  /** What the scan establishes: when it finds nothing, the list points
      backwards, its constants are inside the pool, the count is the
      number of variables, and with `fixed` the variables are canonical. */
  lemma {:induction false} ScanSound(nconsts: nat, ops: seq<Node>, current: nat, nextvar: nat, fixed: bool)
    requires current <= |ops| && nextvar == |VarIds(ops[..current])|
    requires RefsBackward(ops[..current]) && ConstsBelow(ops[..current], nconsts)
    requires fixed ==> VarsCanonical(ops[..current])
    ensures var r := Scan(nconsts, ops, current, nextvar, fixed);
      r.1.None? ==> RefsBackward(ops) && ConstsBelow(ops, nconsts) && r.0 == |VarIds(ops)| && (fixed ==> VarsCanonical(ops))
    decreases |ops| - current
  {
    if current == |ops| {
      assert ops[..current] == ops;
    } else {
      var n := ops[current];
      if NodeError(nconsts, n, current, nextvar, fixed).None? {
        PrefixStep(ops, current);
        RefsBackwardPush(ops[..current], n);
        VarsCanonicalSteps(ops[..current], n, fixed);
        ConstsBelowPush(ops[..current], n, nconsts);
        ScanSound(nconsts, ops, current + 1, if n.Var? then nextvar + 1 else nextvar, fixed);
      }
    }
  }

  /** The variable count and, when checked, canonical variables survive
      pushing a node the scan accepts. */
  lemma VarsCanonicalSteps(ops: seq<Node>, n: Node, fixed: bool)
    requires fixed ==> VarsCanonical(ops)
    requires fixed && n.Var? ==> n.sub == |VarIds(ops)|
    ensures |VarIds(ops + [n])| == |VarIds(ops)| + (if n.Var? then 1 else 0)
    ensures fixed ==> VarsCanonical(ops + [n])
  {
    if n.Var? {
      VarIdsPushVar(ops, n);
    } else {
      VarIdsPushNonVar(ops, n);
    }
    if fixed {
      VarsCanonicalPush(ops, n);
    }
  }

  lemma ConstsBelowPush(ops: seq<Node>, n: Node, nconsts: nat)
    requires ConstsBelow(ops, nconsts) && (n.Const? ==> n.sub < nconsts)
    ensures ConstsBelow(ops + [n], nconsts)
  {
    assert forall i :: 0 <= i < |ops| ==> (ops + [n])[i] == ops[i];
  }

  /** The positions of the variables of a prefix are the first positions
      of the variables of the whole list; the rest lie past the prefix. */
  lemma {:induction false} VarIdsPrefix(ops: seq<Node>, c: nat)
    requires c <= |ops|
    ensures VarIds(ops[..c]) <= VarIds(ops)
    ensures forall k :: |VarIds(ops[..c])| <= k < |VarIds(ops)| ==> VarIds(ops)[k] >= c
    decreases |ops|
  {
    if c < |ops| {
      var init := ops[..|ops| - 1];
      assert init[..c] == ops[..c];
      VarIdsPrefix(init, c);
      assert VarIds(ops) == VarIds(init) + (if ops[|ops| - 1].Var? then [|ops| - 1] else []);
    } else {
      assert ops[..c] == ops;
    }
  }

  /** In a canonical list, the variable at `c` reads the slot numbered by
      the variables before it, and every prefix is canonical. */
  lemma CanonicalPrefix(ops: seq<Node>, c: nat)
    requires VarsCanonical(ops) && c < |ops|
    ensures VarsCanonical(ops[..c])
    ensures ops[c].Var? ==> ops[c].sub == |VarIds(ops[..c])|
  {
    VarIdsPrefix(ops, c);
    var pre := VarIds(ops[..c]);
    forall k | 0 <= k < |pre|
      ensures ops[..c][pre[k]].sub == k
    {
      assert pre[k] == VarIds(ops)[k];
    }
    if ops[c].Var? {
      var all := VarIds(ops);
      var k :| 0 <= k < |all| && all[k] == c;
      assert forall m :: 0 <= m < |pre| ==> all[m] == pre[m] < c;
      assert k >= |pre|;
      assert forall m :: |pre| < m < |all| ==> all[m] > all[|pre|] >= c;
    }
  }

  /** Conversely the scan finds nothing on a list that points backwards,
      keeps its constants inside the pool, and, with `fixed`, has canonical
      variables. */
  lemma {:induction false} ScanComplete(nconsts: nat, ops: seq<Node>, current: nat, nextvar: nat, fixed: bool)
    requires current <= |ops| && nextvar == |VarIds(ops[..current])|
    requires RefsBackward(ops) && ConstsBelow(ops, nconsts) && (fixed ==> VarsCanonical(ops))
    ensures Scan(nconsts, ops, current, nextvar, fixed).1.None?
    decreases |ops| - current
  {
    if current < |ops| {
      var n := ops[current];
      if fixed {
        CanonicalPrefix(ops, current);
      }
      assert NodeError(nconsts, n, current, nextvar, fixed).None?;
      PrefixStep(ops, current);
      if n.Var? {
        VarIdsPushVar(ops[..current], n);
      } else {
        VarIdsPushNonVar(ops[..current], n);
      }
      ScanComplete(nconsts, ops, current + 1, if n.Var? then nextvar + 1 else nextvar, fixed);
    }
  }

  /** The constructor as written defers nothing exactly when the list
      points backwards and its constants are inside the pool; it then
      counts the variables, but does not look at their indices. */
  lemma FromIngredientsChecks(consts: seq<Value>, ops: seq<Node>, pool: Pool)
    ensures var b := FromIngredients(consts, ops, pool);
      && (b.deferred.None? <==> RefsBackward(ops) && ConstsBelow(ops, |consts|))
      && (b.deferred.None? ==> b.nextvar == |VarIds(ops)|)
  {
    assert ops[..0] == [];
    ScanSound(|consts|, ops, 0, 0, false);
    if RefsBackward(ops) && ConstsBelow(ops, |consts|) {
      ScanComplete(|consts|, ops, 0, 0, false);
    }
  }

  /** The corrected constructor defers nothing exactly when the list
      points backwards, its constants are inside the pool and its variables
      are canonical, so a builder it accepts is good but for its empty key
      map. */
  lemma FromIngredientsFixedChecks(consts: seq<Value>, ops: seq<Node>, pool: Pool)
    ensures var b := FromIngredientsFixed(consts, ops, pool);
      && (b.deferred.None? <==> RefsBackward(ops) && ConstsBelow(ops, |consts|) && VarsCanonical(ops))
      && (b.deferred.None? ==> b.nextvar == |VarIds(ops)|)
  {
    assert ops[..0] == [];
    ScanSound(|consts|, ops, 0, 0, true);
    if RefsBackward(ops) && ConstsBelow(ops, |consts|) && VarsCanonical(ops) {
      ScanComplete(|consts|, ops, 0, 0, true);
    }
  }

  /** What the corrected constructor accepts and `build` then returns is a
      valid expression. */
  lemma BuildFromIngredientsFixed(consts: seq<Value>, ops: seq<Node>, pool: Pool, sem: Semantics)
    requires Build(FromIngredientsFixed(consts, ops, pool), sem).Ok?
    ensures Expressions.Valid(Build(FromIngredientsFixed(consts, ops, pool), sem).value)
  {
    var b := FromIngredientsFixed(consts, ops, pool);
    FromIngredientsFixedChecks(consts, ops, pool);
    BuildChecks(b, sem);
  }

  // ---------------------------------------------------------------------
  // Variable indices the constructor does not check.

  /** Two variables whose indices are swapped, added together. */
  const Swapped: seq<Node> := [Var(1, "a"), Var(0, "b"), Binary(Ops.Plus, 0, 1)]

  lemma SwappedShape()
    ensures RefsBackward(Swapped) && ConstsBelow(Swapped, 0) && !VarsCanonical(Swapped)
    ensures VarIds(Swapped) == [0, 1]
  {
    assert VarIds(Swapped[..2]) == [0, 1] by {
      assert Swapped[..2][..1] == [Var(1, "a")];
      assert Swapped[..2][..1][..0] == [];
    }
    assert Swapped[..2] == Swapped[..|Swapped| - 1];
    assert Swapped[VarIds(Swapped)[0]].sub == 1;
  }

  /** The constructor as written accepts the swapped list and `build`
      returns it, although its variables are not canonical. */
  lemma SwappedAccepted()
    ensures FromIngredients([], Swapped, []).deferred.None?
    ensures FromIngredients([], Swapped, []).nextvar == 2
    ensures Build(FromIngredients([], Swapped, []), Sample).Ok?
    ensures !Expressions.Valid(Build(FromIngredients([], Swapped, []), Sample).value)
  {
    SwappedShape();
    SwappedReachable();
    FromIngredientsChecks([], Swapped, []);
    BuildChecks(FromIngredients([], Swapped, []), Sample);
  }

  lemma SwappedReachable()
    ensures RefsBackward(Swapped) && AllReachable(Swapped)
  {
    SwappedShape();
    assert Deps(Swapped[2]) == [0, 1];
    assert Reaches(Swapped, 2, 0) && Reaches(Swapped, 2, 1);
  }

  /** The corrected constructor defers a bad substitution on the first
      variable, whose index is 1 where 0 is due. */
  lemma SwappedRejectedFixed()
    ensures FromIngredientsFixed([], Swapped, []).deferred == Some(BuilderBadSubstitution(0, 1))
    ensures Build(FromIngredientsFixed([], Swapped, []), Sample) == Err(BuilderBadSubstitution(0, 1))
  {
  }

  /** The expression built from the swapped list. */
  const SwappedEx: Expressions.Expression := Expressions.Expression(Sample, Expressions.Ingredients([], Swapped, []))

  /** In the swapped expression the name `a` finds slot 0, but the
      operation named `a` reads slot 1: with `a` bound to 1 and `b` to 10,
      the variable `a` evaluates to 10. */
  lemma SwappedReadsOtherName()
    ensures Build(FromIngredients([], Swapped, []), Sample) == Ok(SwappedEx)
    ensures var c := Expressions.ContextFor(SwappedEx, false);
      && Contexts.FindSlot(c, "a") == Ok(0) && Contexts.FindSlot(c, "b") == Ok(1)
      && var c2 := Contexts.Assign(Contexts.Assign(c, 0, Int(1)), 1, Int(10));
      && Expressions.Denote(SwappedEx, c2.subs, 0) == Ok(Int(10))
  {
    SwappedAccepted();
    SwappedShape();
    var c := Expressions.ContextFor(SwappedEx, false);
    assert c.subs == Contexts.SlotsOf(Swapped);
    assert c.subs[0].name == "a" && c.subs[1].name == "b" && |c.subs| == 2;
    Contexts.FindIsLastDeclared(Swapped, false, "a");
    Contexts.FindIsLastDeclared(Swapped, false, "b");
  }
}
