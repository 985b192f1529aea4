/** Stored values and the operator semantics they are evaluated under.

    A value is the `Variant<null, int, bool>` store the engine is exercised
    with: exactly one active alternative, `null` included.  How a catalogue
    operator acts on typed values is a parameter of the model (`Semantics`);
    the mixed null/typed overloads are pinned down by `NullAxioms`. */
module Values {
  import opened Errors
  import opened Ops

  datatype Value = Null | Int(i: int) | Bool(b: bool)

  /** `apply` answers None when the operand types have no overload of the
      operator; `truth` answers None when a value does not convert to bool. */
  datatype Semantics = Semantics(
    apply: (Fn, seq<Value>) -> Option<Value>,
    truth: Value -> Option<bool>)

  /** Application of an operator with the "incompatible types" error path. */
  function Apply(sem: Semantics, fn: Fn, args: seq<Value>): (r: Result<Value>)
    ensures r.Err? <==> sem.apply(fn, args).None?
    ensures r.Err? ==> r.error == OpIncompatibleTypes
    ensures r.Ok? ==> Some(r.value) == sem.apply(fn, args)
  {
    match sem.apply(fn, args)
    case None => Err(OpIncompatibleTypes)
    case Some(v) => Ok(v)
  }

  predicate IsArithmetic(fn: Fn)
  {
    fn == Plus || fn == Minus || fn == Multiplies || fn == Divides || fn == Modulus
  }

  predicate IsComparison(fn: Fn)
  {
    fn == EqualTo || fn == NotEqualTo || fn == Greater || fn == Less
    || fn == GreaterEqual || fn == LessEqual
  }

  /** Result of a comparison operator with a typed left operand and a null
      right operand, as the null overloads define it. */
  function TypedVersusNull(fn: Fn): bool
    requires IsComparison(fn)
  {
    match fn
    case EqualTo => false
    case NotEqualTo => true
    case Greater => true
    case Less => false
    case GreaterEqual => true
    case LessEqual => false
  }

  /** Result of a comparison operator with a null left operand and a typed
      right operand, as the null overloads define it. */
  function NullVersusTyped(fn: Fn): bool
    requires IsComparison(fn)
  {
    match fn
    case EqualTo => false
    case NotEqualTo => true
    case Greater => false
    case Less => true
    case GreaterEqual => false
    case LessEqual => true
  }

  /** The mixed null/typed overloads: null converts to false; arithmetic with
      one null operand yields null; comparisons with one null operand follow
      the two tables above.  Null/null and unary operators on null are left
      open. */
  ghost predicate NullAxioms(sem: Semantics)
  {
    && sem.truth(Null) == Some(false)
    && (forall fn, v :: IsArithmetic(fn) && v != Null ==>
          sem.apply(fn, [v, Null]) == Some(Null) && sem.apply(fn, [Null, v]) == Some(Null))
    && (forall fn, v :: IsComparison(fn) && v != Null ==>
          sem.apply(fn, [v, Null]) == Some(Bool(TypedVersusNull(fn)))
          && sem.apply(fn, [Null, v]) == Some(Bool(NullVersusTyped(fn))))
  }

  /** Rank of a value in the order the comparison overloads induce: null below
      every typed value. */
  function Rank(v: Value): int
  {
    if v.Null? then 0 else 1
  }

  /** The comparison `fn` on two integers. */
  function CompareInts(fn: Fn, a: int, b: int): bool
    requires IsComparison(fn)
  {
    match fn
    case EqualTo => a == b
    case NotEqualTo => a != b
    case Greater => a > b
    case Less => a < b
    case GreaterEqual => a >= b
    case LessEqual => a <= b
  }

  /** Null is equal only to itself and below any non-null value: with exactly
      one null operand every comparison answers as the same comparison on the
      operands' ranks. */
  lemma NullSortsBelowTyped(sem: Semantics, fn: Fn, x: Value, y: Value)
    requires NullAxioms(sem) && IsComparison(fn)
    requires x.Null? != y.Null?
    ensures sem.apply(fn, [x, y]) == Some(Bool(CompareInts(fn, Rank(x), Rank(y))))
  {
    if x.Null? {
      assert sem.apply(fn, [Null, y]) == Some(Bool(NullVersusTyped(fn)));
    } else {
      assert sem.apply(fn, [x, Null]) == Some(Bool(TypedVersusNull(fn)));
    }
  }

  /** Null absorbs arithmetic: when one operand is null and the other typed,
      the result is null whichever side the null is on. */
  lemma NullAbsorbsArithmetic(sem: Semantics, fn: Fn, x: Value, y: Value)
    requires NullAxioms(sem) && IsArithmetic(fn)
    requires x.Null? != y.Null?
    ensures Apply(sem, fn, [x, y]) == Ok(Null)
  {
    if x.Null? {
      assert sem.apply(fn, [Null, y]) == Some(Null);
    } else {
      assert sem.apply(fn, [x, Null]) == Some(Null);
    }
  }

  // ---------------------------------------------------------------------
  // One concrete semantics: integer + - * negate bit_not and comparisons,
  // the null overloads, and C++'s conversion of null/int/bool to bool.

  function SampleApply(fn: Fn, args: seq<Value>): Option<Value>
  {
    if |args| == 2 && args[0].Null? != args[1].Null? then
      if IsArithmetic(fn) then Some(Null)
      else if IsComparison(fn) then
        Some(Bool(if args[0].Null? then NullVersusTyped(fn) else TypedVersusNull(fn)))
      else None
    else if |args| == 2 && args[0].Int? && args[1].Int? then
      var a, b := args[0].i, args[1].i;
      if fn == Plus then Some(Int(a + b))
      else if fn == Minus then Some(Int(a - b))
      else if fn == Multiplies then Some(Int(a * b))
      else if IsComparison(fn) then Some(Bool(CompareInts(fn, a, b)))
      else None
    else if |args| == 1 && args[0].Int? then
      if fn == Negate then Some(Int(-args[0].i))
      else if fn == BitNot then Some(Int(-args[0].i - 1))
      else None
    else None
  }

  function SampleTruth(v: Value): Option<bool>
  {
    match v
    case Null => Some(false)
    case Int(i) => Some(i != 0)
    case Bool(b) => Some(b)
  }

  const Sample: Semantics := Semantics(SampleApply, SampleTruth)

  /** The sample semantics obeys the null overloads, so the axioms are consistent. */
  lemma SampleObeysNullAxioms()
    ensures NullAxioms(Sample)
  {
  }
}
