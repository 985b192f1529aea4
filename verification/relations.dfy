/** Which operations depend on which variable: reachability over an
    operation list, the `relations` marking it is computed by (as written,
    and corrected), and the per-variable invalidation maps built from it. */
module Relations {
  import opened Nodes
  import opened Bitmaps

  // ---------------------------------------------------------------------
  // Reachability.

  /** Operation `i` reaches operation `j`: it is `j`, or one of its
      dependencies reaches `j`. */
  predicate Reaches(ops: seq<Node>, i: nat, j: nat)
    requires RefsBackward(ops) && i < |ops|
    decreases i, 1
  {
    i == j || AnyReaches(ops, i, Deps(ops[i]), j)
  }

  /** Some operation of `refs`, all before `bound`, reaches `j`. */
  predicate AnyReaches(ops: seq<Node>, bound: nat, refs: seq<nat>, j: nat)
    requires RefsBackward(ops) && bound <= |ops|
    requires forall k :: 0 <= k < |refs| ==> refs[k] < bound
    decreases bound, 0, |refs|
  {
    refs != [] && (Reaches(ops, refs[0], j) || AnyReaches(ops, bound, refs[1..], j))
  }

  /** Operation `i` depends on the variable declared by operation `v`. */
  predicate Depends(ops: seq<Node>, i: nat, v: nat)
    requires RefsBackward(ops) && i < |ops|
  {
    v < |ops| && ops[v].Var? && Reaches(ops, i, v)
  }

  lemma DepsBackward(ops: seq<Node>, i: nat)
    requires RefsBackward(ops) && i < |ops|
    ensures forall k :: 0 <= k < |Deps(ops[i])| ==> Deps(ops[i])[k] < i
  {
  }

  /** `AnyReaches` is the existential over the list it walks. */
  lemma {:induction false} AnyReachesExists(ops: seq<Node>, bound: nat, refs: seq<nat>, j: nat)
    requires RefsBackward(ops) && bound <= |ops|
    requires forall k :: 0 <= k < |refs| ==> refs[k] < bound
    ensures AnyReaches(ops, bound, refs, j) <==> exists k :: 0 <= k < |refs| && Reaches(ops, refs[k], j)
    decreases |refs|
  {
    if refs != [] {
      AnyReachesExists(ops, bound, refs[1..], j);
      if exists k :: 0 <= k < |refs| && Reaches(ops, refs[k], j) {
        var k :| 0 <= k < |refs| && Reaches(ops, refs[k], j);
        if k > 0 {
          assert refs[1..][k - 1] == refs[k];
        }
      }
    }
  }

  /** Reachability only goes backwards through the list. */
  lemma {:induction false} ReachesBackward(ops: seq<Node>, i: nat, j: nat)
    requires RefsBackward(ops) && i < |ops|
    requires Reaches(ops, i, j)
    ensures j <= i
    decreases i
  {
    if i != j {
      DepsBackward(ops, i);
      AnyReachesExists(ops, i, Deps(ops[i]), j);
      var k :| 0 <= k < |Deps(ops[i])| && Reaches(ops, Deps(ops[i])[k], j);
      ReachesBackward(ops, Deps(ops[i])[k], j);
    }
  }

  /** A leaf reaches only itself: a `Const` never depends on a variable and
      a `Var` depends only on itself. */
  lemma LeafDepends(ops: seq<Node>, i: nat, v: nat)
    requires RefsBackward(ops) && i < |ops| && IsLeaf(ops[i])
    ensures Reaches(ops, i, v) <==> i == v
    ensures ops[i].Const? ==> !Depends(ops, i, v)
    ensures ops[i].Var? ==> (Depends(ops, i, v) <==> i == v)
  {
  }

  /** An operator node depends on a variable exactly when one of its
      dependencies does. */
  lemma OperatorDepends(ops: seq<Node>, i: nat, v: nat)
    requires RefsBackward(ops) && i < |ops| && !IsLeaf(ops[i]) && i != v
    ensures Depends(ops, i, v) <==>
      exists k :: 0 <= k < |Deps(ops[i])| && Deps(ops[i])[k] < |ops| && Depends(ops, Deps(ops[i])[k], v)
  {
    DepsBackward(ops, i);
    AnyReachesExists(ops, i, Deps(ops[i]), v);
  }

  /** The last operation, the one an expression evaluates. */
  function Root(ops: seq<Node>): nat
    requires ops != []
  {
    |ops| - 1
  }

  /** Every operation is reachable from the last one: no dangling operation. */
  predicate AllReachable(ops: seq<Node>)
    requires RefsBackward(ops)
  {
    ops != [] && forall i :: 0 <= i < |ops| ==> Reaches(ops, Root(ops), i)
  }

  // ---------------------------------------------------------------------
  // relations, as written.

  /** `relations(ops, op, var, bitmap)` as written: a marked operation
      answers true at once; a `Var` is marked when it is the variable; a
      `Const` is not; any other operation is marked by
      `bitmap[id] = bitmap[id] || relations(ref)` over its refs, so once one
      ref marks it the remaining refs are not explored. */
  function RelationsAsWritten(ops: seq<Node>, op: nat, v: nat, b: Bitmap): (r: (bool, Bitmap))
    requires RefsBackward(ops) && op < |ops| && |b| == |ops|
    ensures |r.1| == |ops|
    decreases op, 1
  {
    if b[op] then (true, b)
    else match ops[op]
      case Var(_, _) => (op == v, b[op := op == v])
      case Const(_) => (false, b)
      case _ =>
        DepsBackward(ops, op);
        var b1 := RefsAsWritten(ops, op, Deps(ops[op]), v, b);
        (b1[op], b1)
  }

  /** The loop over the refs of operation `id` in `RelationsAsWritten`. */
  function RefsAsWritten(ops: seq<Node>, id: nat, refs: seq<nat>, v: nat, b: Bitmap): (r: Bitmap)
    requires RefsBackward(ops) && id < |ops| && |b| == |ops|
    requires forall k :: 0 <= k < |refs| ==> refs[k] < id
    ensures |r| == |ops|
    decreases id, 0, |refs|
  {
    if refs == [] then b
    else
      var b1 := if b[id] then b
        else
          var x := RelationsAsWritten(ops, refs[0], v, b);
          x.1[id := x.0];
      RefsAsWritten(ops, id, refs[1..], v, b1)
  }

  /** What the as-written marking keeps of a sound map: it answers whether
      `op` depends on the variable, keeps the map sound, keeps every mark,
      and changes nothing after `op`. */
  predicate MarksSoundly(ops: seq<Node>, op: nat, v: nat, b: Bitmap, r: (bool, Bitmap))
    requires RefsBackward(ops) && op < |ops| && |b| == |ops| && |r.1| == |ops|
  {
    && r.0 == Depends(ops, op, v) && r.1[op] == r.0
    && Sound(ops, v, r.1)
    && (forall j :: 0 <= j < |b| && b[j] ==> r.1[j])
    && (forall j :: op < j < |b| ==> r.1[j] == b[j])
  }

  /** What the as-written loop over the refs of `id` keeps: `id` ends up
      marked exactly when it was or some ref depends on the variable. */
  predicate RefsMarkSoundly(ops: seq<Node>, id: nat, refs: seq<nat>, v: nat, b: Bitmap, r: Bitmap)
    requires RefsBackward(ops) && id < |ops| && |b| == |ops| && |r| == |ops|
    requires forall k :: 0 <= k < |refs| ==> refs[k] < id
  {
    && (r[id] <==> b[id] || exists k :: 0 <= k < |refs| && Depends(ops, refs[k], v))
    && Sound(ops, v, r)
    && (forall j :: 0 <= j < |b| && b[j] ==> r[j])
    && (forall j :: id < j < |b| ==> r[j] == b[j])
  }

  /** The short circuit loses no soundness: from a sound map the as-written
      marking answers correctly and marks only dependents of the variable
      (it may leave some unmarked, see `ShortCircuitMissesDependent`). */
  lemma {:induction false} RelationsAsWrittenSound(ops: seq<Node>, op: nat, v: nat, b: Bitmap)
    requires RefsBackward(ops) && op < |ops| && |b| == |ops| && Sound(ops, v, b)
    ensures MarksSoundly(ops, op, v, b, RelationsAsWritten(ops, op, v, b))
    decreases op, 1
  {
    if !b[op] {
      if IsLeaf(ops[op]) {
        LeafDepends(ops, op, v);
      } else {
        DepsBackward(ops, op);
        var deps := Deps(ops[op]);
        forall k | 0 <= k < |deps| && Depends(ops, deps[k], v)
          ensures Depends(ops, op, v)
        {
          AnyReachesExists(ops, op, deps, v);
        }
        RefsAsWrittenSound(ops, op, deps, v, b);
        if v < |ops| && ops[v].Var? && op != v {
          OperatorDepends(ops, op, v);
        }
      }
    }
  }

  lemma {:induction false} RefsAsWrittenSound(ops: seq<Node>, id: nat, refs: seq<nat>, v: nat, b: Bitmap)
    requires RefsBackward(ops) && id < |ops| && |b| == |ops| && Sound(ops, v, b)
    requires forall k :: 0 <= k < |refs| ==> refs[k] < id
    requires forall k :: 0 <= k < |refs| && Depends(ops, refs[k], v) ==> Depends(ops, id, v)
    ensures RefsMarkSoundly(ops, id, refs, v, b, RefsAsWritten(ops, id, refs, v, b))
    decreases id, 0, |refs|
  {
    if refs != [] {
      var b1 := if b[id] then b
        else
          var x := RelationsAsWritten(ops, refs[0], v, b);
          x.1[id := x.0];
      if !b[id] {
        RelationsAsWrittenSound(ops, refs[0], v, b);
      }
      assert b1[id] <==> b[id] || Depends(ops, refs[0], v);
      forall k | 0 <= k < |refs[1..]|
        ensures refs[1..][k] == refs[k + 1]
      {
      }
      RefsAsWrittenSound(ops, id, refs[1..], v, b1);
      if exists k :: 0 <= k < |refs| && Depends(ops, refs[k], v) {
        var k :| 0 <= k < |refs| && Depends(ops, refs[k], v);
        if k > 0 {
          assert refs[1..][k - 1] == refs[k];
        }
      }
    }
  }

  // ---------------------------------------------------------------------
  // relations, corrected.

  /** `relations` with every ref explored: an operator node is marked once
      all of its refs have been visited, when any of them depends on the
      variable. */
  function RelationsFixed(ops: seq<Node>, op: nat, v: nat, b: Bitmap): (r: (bool, Bitmap))
    requires RefsBackward(ops) && op < |ops| && |b| == |ops|
    ensures |r.1| == |ops|
    decreases op, 1
  {
    if b[op] then (true, b)
    else match ops[op]
      case Var(_, _) => (op == v, b[op := op == v])
      case Const(_) => (false, b)
      case _ =>
        DepsBackward(ops, op);
        var x := RefsFixed(ops, op, Deps(ops[op]), v, b);
        (x.0, x.1[op := x.0])
  }

  function RefsFixed(ops: seq<Node>, id: nat, refs: seq<nat>, v: nat, b: Bitmap): (r: (bool, Bitmap))
    requires RefsBackward(ops) && id < |ops| && |b| == |ops|
    requires forall k :: 0 <= k < |refs| ==> refs[k] < id
    ensures |r.1| == |ops|
    decreases id, 0, |refs|
  {
    if refs == [] then (false, b)
    else
      var x := RelationsFixed(ops, refs[0], v, b);
      var y := RefsFixed(ops, id, refs[1..], v, x.1);
      (x.0 || y.0, y.1)
  }

  /** Every mark is a dependent of the variable. */
  predicate Sound(ops: seq<Node>, v: nat, b: Bitmap)
    requires RefsBackward(ops) && |b| == |ops|
  {
    forall j :: 0 <= j < |b| && b[j] ==> Depends(ops, j, v)
  }

  /** Below every mark, every dependent of the variable is marked. */
  predicate Closed(ops: seq<Node>, v: nat, b: Bitmap)
    requires RefsBackward(ops) && |b| == |ops|
  {
    forall j, k :: 0 <= k <= j < |b| && b[j] && Reaches(ops, j, k) && Depends(ops, k, v) ==> b[k]
  }

  /** What the corrected marking promises from a sound and closed map: it
      answers whether `op` depends on the variable, marks every dependent
      that `op` reaches, marks nothing that is not a dependent, and marks
      only what `op` reaches. */
  predicate MarksFrom(ops: seq<Node>, op: nat, v: nat, b: Bitmap, r: (bool, Bitmap))
    requires RefsBackward(ops) && op < |ops| && |b| == |ops| && |r.1| == |ops|
  {
    && r.0 == Depends(ops, op, v)
    && Sound(ops, v, r.1) && Closed(ops, v, r.1)
    && (forall j :: 0 <= j < |b| && b[j] ==> r.1[j])
    && (forall j :: 0 <= j < |b| && r.1[j] && !b[j] ==> Reaches(ops, op, j))
    && (forall k :: 0 <= k <= op && Reaches(ops, op, k) && Depends(ops, k, v) ==> r.1[k])
  }

  lemma {:induction false} RelationsFixedCorrect(ops: seq<Node>, op: nat, v: nat, b: Bitmap)
    requires RefsBackward(ops) && op < |ops| && |b| == |ops|
    requires Sound(ops, v, b) && Closed(ops, v, b)
    ensures MarksFrom(ops, op, v, b, RelationsFixed(ops, op, v, b))
    decreases op, 1
  {
    if b[op] {
    } else if IsLeaf(ops[op]) {
      LeafMarks(ops, op, v, b);
    } else {
      DepsBackward(ops, op);
      RefsFixedCorrect(ops, op, Deps(ops[op]), v, b);
      OperatorMarks(ops, op, v, b);
    }
  }

  /** The leaf step of `RelationsFixedCorrect`. */
  lemma LeafMarks(ops: seq<Node>, op: nat, v: nat, b: Bitmap)
    requires RefsBackward(ops) && op < |ops| && |b| == |ops| && IsLeaf(ops[op]) && !b[op]
    requires Sound(ops, v, b) && Closed(ops, v, b)
    ensures MarksFrom(ops, op, v, b, RelationsFixed(ops, op, v, b))
  {
    var r := RelationsFixed(ops, op, v, b);
    LeafDepends(ops, op, v);
    forall k | 0 <= k <= op && Reaches(ops, op, k)
      ensures k == op
    {
      LeafDepends(ops, op, k);
    }
    forall j, k | 0 <= k <= j < |r.1| && r.1[j] && Reaches(ops, j, k) && Depends(ops, k, v)
      ensures r.1[k]
    {
      if j == op {
        LeafDepends(ops, op, k);
      }
    }
  }

  /** The operator step of `RelationsFixedCorrect`, from what the loop over
      the refs promises. */
  lemma OperatorMarks(ops: seq<Node>, op: nat, v: nat, b: Bitmap)
    requires RefsBackward(ops) && op < |ops| && |b| == |ops| && !IsLeaf(ops[op]) && !b[op]
    requires Sound(ops, v, b) && Closed(ops, v, b)
    requires forall k :: 0 <= k < |Deps(ops[op])| ==> Deps(ops[op])[k] < op
    requires RefsMarkFrom(ops, op, Deps(ops[op]), v, b, RefsFixed(ops, op, Deps(ops[op]), v, b))
    ensures MarksFrom(ops, op, v, b, RelationsFixed(ops, op, v, b))
  {
    var deps := Deps(ops[op]);
    var x := RefsFixed(ops, op, deps, v, b);
    var r := RelationsFixed(ops, op, v, b);
    assert r == (x.0, x.1[op := x.0]);
    AnyReachesExists(ops, op, deps, v);
    assert x.0 == Depends(ops, op, v) by {
      if v < |ops| && ops[v].Var? && op == v {
        assert false;
      }
    }
    forall j | 0 <= j < |b| && r.1[j] && !b[j]
      ensures Reaches(ops, op, j)
    {
      if j != op {
        AnyReachesExists(ops, op, deps, j);
      }
    }
    forall k | 0 <= k <= op && Reaches(ops, op, k) && Depends(ops, k, v)
      ensures r.1[k]
    {
      if k != op {
        AnyReachesExists(ops, op, deps, k);
        var m :| 0 <= m < |deps| && Reaches(ops, deps[m], k);
        ReachesBackward(ops, deps[m], k);
      }
    }
    forall j, k | 0 <= k <= j < |r.1| && r.1[j] && Reaches(ops, j, k) && Depends(ops, k, v)
      ensures r.1[k]
    {
      if j != op {
        assert x.1[j];
      }
    }
  }

  /** What the loop over the refs of `id` promises. */
  predicate RefsMarkFrom(ops: seq<Node>, id: nat, refs: seq<nat>, v: nat, b: Bitmap, r: (bool, Bitmap))
    requires RefsBackward(ops) && id < |ops| && |b| == |ops| && |r.1| == |ops|
    requires forall k :: 0 <= k < |refs| ==> refs[k] < id
  {
    && (r.0 <==> exists k :: 0 <= k < |refs| && Depends(ops, refs[k], v))
    && Sound(ops, v, r.1) && Closed(ops, v, r.1)
    && !r.1[id]
    && (forall j :: 0 <= j < |b| && b[j] ==> r.1[j])
    && (forall j :: 0 <= j < |b| && r.1[j] && !b[j] ==> exists k :: 0 <= k < |refs| && Reaches(ops, refs[k], j))
    && (forall k, m :: 0 <= k < |refs| && 0 <= m <= refs[k] && Reaches(ops, refs[k], m) && Depends(ops, m, v) ==> r.1[m])
  }

  lemma {:induction false} RefsFixedCorrect(ops: seq<Node>, id: nat, refs: seq<nat>, v: nat, b: Bitmap)
    requires RefsBackward(ops) && id < |ops| && |b| == |ops|
    requires forall k :: 0 <= k < |refs| ==> refs[k] < id
    requires Sound(ops, v, b) && Closed(ops, v, b)
    requires !b[id]
    ensures RefsMarkFrom(ops, id, refs, v, b, RefsFixed(ops, id, refs, v, b))
    decreases id, 0, |refs|
  {
    if refs != [] {
      var x := RelationsFixed(ops, refs[0], v, b);
      RelationsFixedCorrect(ops, refs[0], v, b);
      assert !x.1[id] by {
        if x.1[id] {
          ReachesBackward(ops, refs[0], id);
        }
      }
      var y := RefsFixed(ops, id, refs[1..], v, x.1);
      RefsFixedCorrect(ops, id, refs[1..], v, x.1);
      RefsCombine(ops, id, refs, v, b, x, y);
    }
  }

  /** The first ref's marking followed by the loop over the others keeps
      what the loop promises. */
  lemma RefsCombine(ops: seq<Node>, id: nat, refs: seq<nat>, v: nat, b: Bitmap, x: (bool, Bitmap), y: (bool, Bitmap))
    requires RefsBackward(ops) && id < |ops| && |b| == |ops| && |x.1| == |ops| && |y.1| == |ops|
    requires refs != [] && forall k :: 0 <= k < |refs| ==> refs[k] < id
    requires MarksFrom(ops, refs[0], v, b, x) && !x.1[id]
    requires RefsMarkFrom(ops, id, refs[1..], v, x.1, y)
    ensures RefsMarkFrom(ops, id, refs, v, b, (x.0 || y.0, y.1))
  {
    forall j | 0 <= j < |b| && y.1[j] && !b[j]
      ensures exists k :: 0 <= k < |refs| && Reaches(ops, refs[k], j)
    {
      if !x.1[j] {
        var k :| 0 <= k < |refs[1..]| && Reaches(ops, refs[1..][k], j);
        assert refs[k + 1] == refs[1..][k];
      }
    }
    forall k, m | 0 <= k < |refs| && 0 <= m <= refs[k] && Reaches(ops, refs[k], m) && Depends(ops, m, v)
      ensures y.1[m]
    {
      if k > 0 {
        assert refs[1..][k - 1] == refs[k];
      }
    }
    if exists k :: 0 <= k < |refs| && Depends(ops, refs[k], v) {
      var k :| 0 <= k < |refs| && Depends(ops, refs[k], v);
      if k > 0 {
        assert refs[1..][k - 1] == refs[k];
      }
    }
    if y.0 && !x.0 {
      var k :| 0 <= k < |refs[1..]| && Depends(ops, refs[1..][k], v);
      assert refs[k + 1] == refs[1..][k];
    }
  }

  // ---------------------------------------------------------------------
  // invalidations.

  /** The marks computed from the last operation for variable operation `v`
      on an all-false map, by the corrected or the as-written marking. */
  function Marks(ops: seq<Node>, v: nat, asWritten: bool): (b: Bitmap)
    requires RefsBackward(ops) && ops != []
    ensures |b| == |ops|
  {
    var root := Root(ops);
    if asWritten then RelationsAsWritten(ops, root, v, New(|ops|, false)).1
    else RelationsFixed(ops, root, v, New(|ops|, false)).1
  }

  /** `invalidations(ops, inverse)`: one map per `Var` operation in list
      order, complemented when `inverse` is set. */
  function InvalidationsWith(ops: seq<Node>, inverse: bool, asWritten: bool): (r: seq<Bitmap>)
    requires RefsBackward(ops)
    ensures |r| == |VarIds(ops)|
    ensures forall k :: 0 <= k < |r| ==> |r[k]| == |ops|
  {
    var vars := VarIds(ops);
    seq(|vars|, k requires 0 <= k < |vars| =>
      var m := Marks(ops, vars[k], asWritten);
      if inverse then Not(m) else m)
  }

  /** The map of the `k`-th variable. */
  lemma InvalidationsAt(ops: seq<Node>, inverse: bool, asWritten: bool, k: nat)
    requires RefsBackward(ops) && k < |VarIds(ops)|
    ensures var m := Marks(ops, VarIds(ops)[k], asWritten);
      InvalidationsWith(ops, inverse, asWritten)[k] == if inverse then Not(m) else m
  {
  }

  function Invalidations(ops: seq<Node>, inverse: bool): (r: seq<Bitmap>)
    requires RefsBackward(ops)
    ensures |r| == |VarIds(ops)|
    ensures forall k :: 0 <= k < |r| ==> |r[k]| == |ops|
  {
    InvalidationsWith(ops, inverse, false)
  }

  function InvalidationsAsWritten(ops: seq<Node>, inverse: bool): (r: seq<Bitmap>)
    requires RefsBackward(ops)
    ensures |r| == |VarIds(ops)|
    ensures forall k :: 0 <= k < |r| ==> |r[k]| == |ops|
  {
    InvalidationsWith(ops, inverse, true)
  }

  /** The corrected maps mark exactly the operations that the last operation
      reaches and that depend on the variable; complemented, they keep
      exactly the others. */
  lemma InvalidationsMarkDependents(ops: seq<Node>, k: nat, i: nat)
    requires RefsBackward(ops) && k < |VarIds(ops)| && i < |ops|
    ensures Invalidations(ops, false)[k][i] <==> Reaches(ops, Root(ops), i) && Depends(ops, i, VarIds(ops)[k])
    ensures Invalidations(ops, true)[k][i] <==> !Invalidations(ops, false)[k][i]
  {
    var root := Root(ops);
    var v := VarIds(ops)[k];
    var b := New(|ops|, false);
    RelationsFixedCorrect(ops, root, v, b);
    var m := Marks(ops, v, false);
    if Reaches(ops, root, i) && Depends(ops, i, v) {
      ReachesBackward(ops, root, i);
    }
    assert Invalidations(ops, false)[k] == m;
    assert Invalidations(ops, true)[k] == Not(m);
  }

  /** As written, the map of variable `k` marks only operations that depend
      on it, so on a list with no dangling operation only operations the
      corrected map marks; both agree on the last operation. */
  lemma InvalidationsAsWrittenSound(ops: seq<Node>, k: nat, i: nat)
    requires RefsBackward(ops) && k < |VarIds(ops)| && i < |ops|
    ensures InvalidationsAsWritten(ops, false)[k][i] ==> Depends(ops, i, VarIds(ops)[k])
    ensures AllReachable(ops) && InvalidationsAsWritten(ops, false)[k][i] ==> Invalidations(ops, false)[k][i]
    ensures InvalidationsAsWritten(ops, false)[k][Root(ops)] == Invalidations(ops, false)[k][Root(ops)]
  {
    var v := VarIds(ops)[k];
    var b := New(|ops|, false);
    RelationsAsWrittenSound(ops, Root(ops), v, b);
    InvalidationsAt(ops, false, true, k);
    InvalidationsMarkDependents(ops, k, i);
    InvalidationsMarkDependents(ops, k, Root(ops));
  }

  /** With no dangling operation, the inverse map of variable `k` clears
      exactly the operations that depend on it. */
  lemma InvalidationsExact(ops: seq<Node>, k: nat, i: nat)
    requires RefsBackward(ops) && AllReachable(ops) && k < |VarIds(ops)| && i < |ops|
    ensures !Invalidations(ops, true)[k][i] <==> Depends(ops, i, VarIds(ops)[k])
  {
    InvalidationsMarkDependents(ops, k, i);
  }

  // ---------------------------------------------------------------------
  // The short circuit, on plus(negate(a), bit_not(a)).

  const Diamond: seq<Node> := [
    Var(0, "a"), Unary(Ops.Negate, 0), Unary(Ops.BitNot, 0), Binary(Ops.Plus, 1, 2) ]

  lemma DiamondShape()
    ensures RefsBackward(Diamond) && VarIds(Diamond) == [0]
  {
    DiamondBackward();
    DiamondVars();
  }

  lemma DiamondBackward()
    ensures RefsBackward(Diamond)
  {
    forall i, k | 0 <= i < |Diamond| && 0 <= k < |Deps(Diamond[i])|
      ensures Deps(Diamond[i])[k] < i
    {
      if i == 3 {
        assert Deps(Diamond[3]) == [1, 2];
      } else if i > 0 {
        assert Deps(Diamond[i]) == [0];
      }
    }
  }

  lemma DiamondVars()
    ensures VarIds(Diamond) == [0]
  {
    DiamondVarsUpTo2();
    assert Diamond[..|Diamond| - 1] == Diamond[..3];
    assert Diamond[..3][..2] == Diamond[..2];
    assert !Diamond[2].Var? && !Diamond[3].Var?;
  }

  lemma DiamondVarsUpTo2()
    ensures VarIds(Diamond[..2]) == [0]
  {
    assert Diamond[..2][..1] == [Var(0, "a")];
    assert [Var(0, "a")][..0] == [];
  }

  /** The marks as written, node by node. */
  lemma DiamondAsWrittenSteps()
    requires RefsBackward(Diamond)
    ensures RelationsAsWritten(Diamond, 0, 0, [false, false, false, false]) == (true, [true, false, false, false])
    ensures RelationsAsWritten(Diamond, 1, 0, [false, false, false, false]) == (true, [true, true, false, false])
    ensures RefsAsWritten(Diamond, 3, [2], 0, [true, true, false, true]) == [true, true, false, true]
  {
    var b0 := [false, false, false, false];
    assert Diamond[0] == Var(0, "a");
    assert b0[0 := true] == [true, false, false, false];
    assert Deps(Diamond[1]) == [0];
    var x := RelationsAsWritten(Diamond, 0, 0, b0);
    assert RefsAsWritten(Diamond, 1, [0], 0, b0) == x.1[1 := x.0];
    assert [true, false, false, false][1 := true] == [true, true, false, false];
  }

  /** As written, `bit_not(a)` (operation 2) is left unmarked although it
      depends on `a`: the root was already marked through `negate(a)`. */
  lemma ShortCircuitMissesDependent()
    ensures RefsBackward(Diamond) && VarIds(Diamond) == [0]
    ensures Depends(Diamond, 2, 0)
    ensures InvalidationsAsWritten(Diamond, false)[0] == [true, true, false, true]
    ensures Invalidations(Diamond, false)[0] == [true, true, true, true]
  {
    DiamondShape();
    DiamondAsWrittenSteps();
    var b0 := New(4, false);
    assert b0 == [false, false, false, false];
    assert Reaches(Diamond, 2, 0) by {
      assert Deps(Diamond[2]) == [0];
    }
    // As written: the root's first ref marks it, the second is skipped.
    var n1 := RelationsAsWritten(Diamond, 1, 0, b0);
    assert n1.1[3 := n1.0] == [true, true, false, true];
    assert RelationsAsWritten(Diamond, 3, 0, b0).1 == [true, true, false, true] by {
      assert Deps(Diamond[3]) == [1, 2];
      assert [1, 2][1..] == [2];
      assert RefsAsWritten(Diamond, 3, [1, 2], 0, b0) == RefsAsWritten(Diamond, 3, [2], 0, n1.1[3 := n1.0]);
    }
    assert InvalidationsAsWritten(Diamond, false)[0] == Marks(Diamond, 0, true);
    // Corrected: every ref is explored.
    var m := Invalidations(Diamond, false)[0];
    forall i | 0 <= i < 4
      ensures m[i]
    {
      InvalidationsMarkDependents(Diamond, 0, i);
      assert Deps(Diamond[3]) == [1, 2];
      assert Deps(Diamond[1]) == [0];
      assert Deps(Diamond[2]) == [0];
      assert Reaches(Diamond, 1, 0) && Reaches(Diamond, 2, 0);
      assert Reaches(Diamond, 3, i);
    }
  }

  // ---------------------------------------------------------------------
  // The invalidation tests: (-42 + -a) and ((-42 + -a) - b).

  const SingleTest: seq<Node> := [
    Const(0), Var(0, "a"), Unary(Ops.Negate, 1), Unary(Ops.Negate, 0), Binary(Ops.Plus, 3, 2) ]

  lemma SingleTestBackward()
    ensures RefsBackward(SingleTest)
  {
    forall i, k | 0 <= i < |SingleTest| && 0 <= k < |Deps(SingleTest[i])|
      ensures Deps(SingleTest[i])[k] < i
    {
      if i == 4 {
        assert Deps(SingleTest[4]) == [3, 2];
      }
    }
  }

  /** A strictly increasing list of numbers in `lo .. hi - 1` has at most
      `hi - lo` entries. */
  lemma {:induction false} IncreasingFits(r: seq<nat>, lo: nat, hi: nat)
    requires lo <= hi
    requires forall k, m :: 0 <= k < m < |r| ==> r[k] < r[m]
    requires forall k :: 0 <= k < |r| ==> lo <= r[k] < hi
    ensures |r| <= hi - lo
    decreases |r|
  {
    if r != [] {
      var init, last := r[..|r| - 1], r[|r| - 1];
      forall k | 0 <= k < |init|
        ensures lo <= init[k] < last
      {
        assert init[k] == r[k];
      }
      IncreasingFits(init, lo, last);
      assert lo <= last < hi;
    }
  }

  lemma SingleTestVars()
    ensures VarIds(SingleTest) == [1]
  {
    var r := VarIds(SingleTest);
    assert SingleTest[1].Var?;
    forall k | 0 <= k < |r|
      ensures r[k] == 1
    {
      assert SingleTest[r[k]].Var?;
    }
    IncreasingFits(r, 1, 2);
  }

  /** The marking of `a` on `(-42 + -a)` as written, operation by operation. */
  lemma SingleTestAsWritten()
    requires RefsBackward(SingleTest)
    ensures RelationsAsWritten(SingleTest, 4, 1, New(5, false)) == (true, [false, true, true, false, true])
  {
    var b0 := New(5, false);
    assert b0 == [false, false, false, false, false];
    assert Deps(SingleTest[4]) == [3, 2] && Deps(SingleTest[3]) == [0] && Deps(SingleTest[2]) == [1];
    assert [3, 2][1..] == [2] && [0][1..] == [] && [1][1..] == [];
    assert b0[3 := false] == b0 && b0[4 := false] == b0;
    var b2 := [false, true, true, false, false];
    assert RelationsAsWritten(SingleTest, 0, 1, b0) == (false, b0);
    assert RefsAsWritten(SingleTest, 3, [0], 1, b0) == b0;
    assert RelationsAsWritten(SingleTest, 3, 1, b0) == (false, b0);
    assert RelationsAsWritten(SingleTest, 1, 1, b0) == (true, b0[1 := true]);
    assert RefsAsWritten(SingleTest, 2, [1], 1, b0) == b2;
    assert RelationsAsWritten(SingleTest, 2, 1, b0) == (true, b2);
    assert RefsAsWritten(SingleTest, 4, [3, 2], 1, b0) == RefsAsWritten(SingleTest, 4, [2], 1, b0);
    assert RefsAsWritten(SingleTest, 4, [2], 1, b0) == b2[4 := true];
    assert b2[4 := true] == [false, true, true, false, true];
  }

  /** The corrected marking of `a` on `(-42 + -a)`, operation by operation. */
  lemma SingleTestFixed()
    requires RefsBackward(SingleTest)
    ensures RelationsFixed(SingleTest, 4, 1, New(5, false)) == (true, [false, true, true, false, true])
  {
    var b0 := New(5, false);
    assert b0 == [false, false, false, false, false];
    assert Deps(SingleTest[4]) == [3, 2] && Deps(SingleTest[3]) == [0] && Deps(SingleTest[2]) == [1];
    assert [3, 2][1..] == [2] && [0][1..] == [] && [1][1..] == [];
    assert b0[3 := false] == b0;
    var b2 := [false, true, true, false, false];
    assert RelationsFixed(SingleTest, 0, 1, b0) == (false, b0);
    assert RefsFixed(SingleTest, 3, [0], 1, b0) == (false, b0);
    assert RelationsFixed(SingleTest, 3, 1, b0) == (false, b0);
    assert RelationsFixed(SingleTest, 1, 1, b0) == (true, b0[1 := true]);
    assert RefsFixed(SingleTest, 2, [1], 1, b0) == (true, b0[1 := true]);
    assert b0[1 := true][2 := true] == b2;
    assert RelationsFixed(SingleTest, 2, 1, b0) == (true, b2);
    assert RefsFixed(SingleTest, 4, [2], 1, b0) == (true, b2);
    assert RefsFixed(SingleTest, 4, [3, 2], 1, b0) == (true, b2);
    assert b2[4 := true] == [false, true, true, false, true];
  }

  /** The map of `a` in `(-42 + -a)` marks `a`, `-a` and the sum, as written
      and corrected alike. */
  lemma InvalidationSingle()
    ensures RefsBackward(SingleTest)
    ensures InvalidationsAsWritten(SingleTest, false) == [[false, true, true, false, true]]
    ensures Invalidations(SingleTest, false) == [[false, true, true, false, true]]
  {
    SingleTestBackward();
    SingleTestVars();
    SingleTestAsWritten();
    SingleTestFixed();
  }

  const DoubleTest: seq<Node> := [
    Const(0), Var(0, "a"), Unary(Ops.Negate, 1), Unary(Ops.Negate, 0), Binary(Ops.Plus, 3, 2),
    Var(1, "b"), Binary(Ops.Minus, 4, 5) ]

  lemma DoubleTestShape()
    ensures RefsBackward(DoubleTest) && VarIds(DoubleTest) == [1, 5]
  {
    forall i, k | 0 <= i < |DoubleTest| && 0 <= k < |Deps(DoubleTest[i])|
      ensures Deps(DoubleTest[i])[k] < i
    {
      if i == 4 {
        assert Deps(DoubleTest[4]) == [3, 2];
      } else if i == 6 {
        assert Deps(DoubleTest[6]) == [4, 5];
      }
    }
    SingleTestVars();
    assert DoubleTest[..6][..5] == SingleTest;
    assert VarIds(DoubleTest[..6]) == [1, 5];
  }

  /** `(-42 + -a)` inside `((-42 + -a) - b)`: as written, it marks `a`,
      `-a` and itself for `a`, and nothing for `b`. */
  lemma DoubleTestLowAsWrittenA()
    requires RefsBackward(DoubleTest)
    ensures RelationsAsWritten(DoubleTest, 4, 1, New(7, false)) == (true, [false, true, true, false, true, false, false])
  {
    var b0 := New(7, false);
    assert b0 == [false, false, false, false, false, false, false];
    assert Deps(DoubleTest[4]) == [3, 2] && Deps(DoubleTest[3]) == [0] && Deps(DoubleTest[2]) == [1];
    assert [3, 2][1..] == [2] && [0][1..] == [] && [1][1..] == [];
    assert b0[3 := false] == b0 && b0[4 := false] == b0;
    var b2 := [false, true, true, false, false, false, false];
    assert RelationsAsWritten(DoubleTest, 0, 1, b0) == (false, b0);
    assert RefsAsWritten(DoubleTest, 3, [0], 1, b0) == b0;
    assert RelationsAsWritten(DoubleTest, 3, 1, b0) == (false, b0);
    assert RelationsAsWritten(DoubleTest, 1, 1, b0) == (true, b0[1 := true]);
    assert RefsAsWritten(DoubleTest, 2, [1], 1, b0) == b2;
    assert RelationsAsWritten(DoubleTest, 2, 1, b0) == (true, b2);
    assert RefsAsWritten(DoubleTest, 4, [3, 2], 1, b0) == RefsAsWritten(DoubleTest, 4, [2], 1, b0);
    assert RefsAsWritten(DoubleTest, 4, [2], 1, b0) == b2[4 := true];
    assert b2[4 := true] == [false, true, true, false, true, false, false];
  }

  lemma DoubleTestLowAsWrittenB()
    requires RefsBackward(DoubleTest)
    ensures RelationsAsWritten(DoubleTest, 4, 5, New(7, false)) == (false, New(7, false))
  {
    var b0 := New(7, false);
    assert b0 == [false, false, false, false, false, false, false];
    assert Deps(DoubleTest[4]) == [3, 2] && Deps(DoubleTest[3]) == [0] && Deps(DoubleTest[2]) == [1];
    assert [3, 2][1..] == [2] && [0][1..] == [] && [1][1..] == [];
    assert b0[1 := false] == b0 && b0[2 := false] == b0 && b0[3 := false] == b0 && b0[4 := false] == b0;
    assert RelationsAsWritten(DoubleTest, 0, 5, b0) == (false, b0);
    assert RefsAsWritten(DoubleTest, 3, [0], 5, b0) == b0;
    assert RelationsAsWritten(DoubleTest, 3, 5, b0) == (false, b0);
    assert RelationsAsWritten(DoubleTest, 1, 5, b0) == (false, b0);
    assert RefsAsWritten(DoubleTest, 2, [1], 5, b0) == b0;
    assert RelationsAsWritten(DoubleTest, 2, 5, b0) == (false, b0);
    assert RefsAsWritten(DoubleTest, 4, [3, 2], 5, b0) == RefsAsWritten(DoubleTest, 4, [2], 5, b0);
    assert RefsAsWritten(DoubleTest, 4, [2], 5, b0) == b0;
  }

  lemma DoubleTestLowFixedA()
    requires RefsBackward(DoubleTest)
    ensures RelationsFixed(DoubleTest, 4, 1, New(7, false)) == (true, [false, true, true, false, true, false, false])
  {
    var b0 := New(7, false);
    assert b0 == [false, false, false, false, false, false, false];
    assert Deps(DoubleTest[4]) == [3, 2] && Deps(DoubleTest[3]) == [0] && Deps(DoubleTest[2]) == [1];
    assert [3, 2][1..] == [2] && [0][1..] == [] && [1][1..] == [];
    assert b0[3 := false] == b0;
    var b2 := [false, true, true, false, false, false, false];
    assert RelationsFixed(DoubleTest, 0, 1, b0) == (false, b0);
    assert RefsFixed(DoubleTest, 3, [0], 1, b0) == (false, b0);
    assert RelationsFixed(DoubleTest, 3, 1, b0) == (false, b0);
    assert RelationsFixed(DoubleTest, 1, 1, b0) == (true, b0[1 := true]);
    assert RefsFixed(DoubleTest, 2, [1], 1, b0) == (true, b0[1 := true]);
    assert b0[1 := true][2 := true] == b2;
    assert RelationsFixed(DoubleTest, 2, 1, b0) == (true, b2);
    assert RefsFixed(DoubleTest, 4, [2], 1, b0) == (true, b2);
    assert RefsFixed(DoubleTest, 4, [3, 2], 1, b0) == (true, b2);
    assert b2[4 := true] == [false, true, true, false, true, false, false];
  }

  lemma DoubleTestLowFixedB()
    requires RefsBackward(DoubleTest)
    ensures RelationsFixed(DoubleTest, 4, 5, New(7, false)) == (false, New(7, false))
  {
    var b0 := New(7, false);
    assert b0 == [false, false, false, false, false, false, false];
    assert Deps(DoubleTest[4]) == [3, 2] && Deps(DoubleTest[3]) == [0] && Deps(DoubleTest[2]) == [1];
    assert [3, 2][1..] == [2] && [0][1..] == [] && [1][1..] == [];
    assert b0[1 := false] == b0 && b0[2 := false] == b0 && b0[3 := false] == b0 && b0[4 := false] == b0;
    assert RelationsFixed(DoubleTest, 0, 5, b0) == (false, b0);
    assert RefsFixed(DoubleTest, 3, [0], 5, b0) == (false, b0);
    assert RelationsFixed(DoubleTest, 3, 5, b0) == (false, b0);
    assert RelationsFixed(DoubleTest, 1, 5, b0) == (false, b0);
    assert RefsFixed(DoubleTest, 2, [1], 5, b0) == (false, b0);
    assert RelationsFixed(DoubleTest, 2, 5, b0) == (false, b0);
    assert RefsFixed(DoubleTest, 4, [2], 5, b0) == (false, b0);
    assert RefsFixed(DoubleTest, 4, [3, 2], 5, b0) == (false, b0);
  }

  /** The root `(...) - b` as written: for `a` the left operand marks it and
      `b` is not explored; for `b` only the right operand marks it. */
  lemma DoubleTestAsWritten()
    requires RefsBackward(DoubleTest)
    ensures RelationsAsWritten(DoubleTest, 6, 1, New(7, false)).1 == [false, true, true, false, true, false, true]
    ensures RelationsAsWritten(DoubleTest, 6, 5, New(7, false)).1 == [false, false, false, false, false, true, true]
  {
    DoubleTestLowAsWrittenA();
    DoubleTestLowAsWrittenB();
    var b0 := New(7, false);
    assert b0 == [false, false, false, false, false, false, false];
    assert Deps(DoubleTest[6]) == [4, 5] && [4, 5][1..] == [5] && [5][1..] == [];
    var b4 := [false, true, true, false, true, false, false];
    assert RefsAsWritten(DoubleTest, 6, [5], 1, b4[6 := true]) == b4[6 := true];
    assert b0[6 := false] == b0;
    assert RelationsAsWritten(DoubleTest, 5, 5, b0) == (true, b0[5 := true]);
    assert RefsAsWritten(DoubleTest, 6, [5], 5, b0) == b0[5 := true][6 := true];
  }

  /** The corrected root `(...) - b`: both operands are explored. */
  lemma DoubleTestFixed()
    requires RefsBackward(DoubleTest)
    ensures RelationsFixed(DoubleTest, 6, 1, New(7, false)).1 == [false, true, true, false, true, false, true]
    ensures RelationsFixed(DoubleTest, 6, 5, New(7, false)).1 == [false, false, false, false, false, true, true]
  {
    DoubleTestLowFixedA();
    DoubleTestLowFixedB();
    var b0 := New(7, false);
    assert b0 == [false, false, false, false, false, false, false];
    assert Deps(DoubleTest[6]) == [4, 5] && [4, 5][1..] == [5] && [5][1..] == [];
    var b4 := [false, true, true, false, true, false, false];
    assert b4[5 := false] == b4;
    assert RelationsFixed(DoubleTest, 5, 1, b4) == (false, b4);
    assert RefsFixed(DoubleTest, 6, [5], 1, b4) == (false, b4);
    assert RefsFixed(DoubleTest, 6, [4, 5], 1, b0) == (true, b4);
    assert RelationsFixed(DoubleTest, 5, 5, b0) == (true, b0[5 := true]);
    assert RefsFixed(DoubleTest, 6, [5], 5, b0) == (true, b0[5 := true]);
    assert RefsFixed(DoubleTest, 6, [4, 5], 5, b0) == (true, b0[5 := true]);
  }

  /** The maps of a list with two variables. */
  lemma MapsOfTwo(ops: seq<Node>, asWritten: bool, ma: Bitmap, mb: Bitmap)
    requires RefsBackward(ops) && |VarIds(ops)| == 2
    requires Marks(ops, VarIds(ops)[0], asWritten) == ma && Marks(ops, VarIds(ops)[1], asWritten) == mb
    ensures InvalidationsWith(ops, false, asWritten) == [ma, mb]
  {
    InvalidationsAt(ops, false, asWritten, 0);
    InvalidationsAt(ops, false, asWritten, 1);
  }

  /** The maps of `a` and `b` in `((-42 + -a) - b)`, as written and
      corrected alike. */
  lemma InvalidationDouble()
    ensures RefsBackward(DoubleTest)
    ensures InvalidationsAsWritten(DoubleTest, false) ==
      [[false, true, true, false, true, false, true], [false, false, false, false, false, true, true]]
    ensures Invalidations(DoubleTest, false) ==
      [[false, true, true, false, true, false, true], [false, false, false, false, false, true, true]]
  {
    DoubleTestShape();
    DoubleTestAsWritten();
    DoubleTestFixed();
    var ma := [false, true, true, false, true, false, true];
    var mb := [false, false, false, false, false, true, true];
    MapsOfTwo(DoubleTest, true, ma, mb);
    MapsOfTwo(DoubleTest, false, ma, mb);
  }
}
