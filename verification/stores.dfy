/** The two nullable stores: `Single`, one value type with a separate null
    flag, and `Variant`, a tagged union with `null` as one alternative.

    The `Variant` over `null`, `int` and `bool` is `Values.Value` itself; it
    is the reference the `Single` store is compared with, through the
    abstraction `AsVariant` of a `Single` over `int`. */
module Stores {
  import opened Errors
  import opened Values

  /** What a store's visitor is called with: the null marker or a value. */
  datatype Visited<V> = NullMarker | Typed(value: V)

  datatype Single<V> = Single(isNull: bool, stored: V)

  /** Default construction: null, with a value-initialised payload `zero`. */
  function SingleDefault<V>(zero: V): (s: Single<V>)
    ensures !SingleTruthy(s)
    ensures SingleVisit(s) == NullMarker
  {
    Single(true, zero)
  }

  /** Construction from a value: non-null. */
  function SingleOf<V>(v: V): (s: Single<V>)
    ensures SingleTruthy(s)
    ensures SingleVisit(s) == Typed(v)
  {
    Single(false, v)
  }

  /** `operator bool`: true exactly when the store is not null. */
  function SingleTruthy<V>(s: Single<V>): bool
  {
    !s.isNull
  }

  /** The visitor receives the null marker when null and the payload otherwise. */
  function SingleVisit<V>(s: Single<V>): (r: Visited<V>)
    ensures r.NullMarker? <==> !SingleTruthy(s)
    ensures r.Typed? ==> r.value == s.stored
  {
    if s.isNull then NullMarker else Typed(s.stored)
  }

  /** `operator=` as written: the payload is replaced, the null flag is kept. */
  function SingleAssign<V>(s: Single<V>, v: V): (r: Single<V>)
    ensures r.stored == v
    ensures SingleTruthy(r) == SingleTruthy(s)
  {
    Single(s.isNull, v)
  }

  /** `operator=` as the Substitute contract describes it: the store holds `v`. */
  function SingleAssignFixed<V>(s: Single<V>, v: V): (r: Single<V>)
    ensures SingleVisit(r) == Typed(v)
  {
    SingleOf(v)
  }

  // ---------------------------------------------------------------------
  // Variant<null, int, bool> is Value.

  /** Default construction holds null. */
  const VariantDefault: Value := Null

  /** `operator bool`: true exactly when the active alternative is not null. */
  function VariantTruthy(v: Value): bool
  {
    !v.Null?
  }

  /** The visitor receives exactly the active alternative. */
  function VariantVisit(v: Value): (r: Visited<Value>)
    ensures r.NullMarker? <==> !VariantTruthy(v)
    ensures r.Typed? ==> r.value == v
  {
    if v.Null? then NullMarker else Typed(v)
  }

  /** `operator=`: the assigned value becomes the active alternative. */
  function VariantAssign(current: Value, v: Value): (r: Value)
    ensures VariantTruthy(r) <==> VariantTruthy(v)
    ensures VariantVisit(r) == VariantVisit(v)
  {
    v
  }

  // ---------------------------------------------------------------------
  // Single<int> against Variant<null, int, bool>.

  function AsVariant(s: Single<int>): Value
  {
    if s.isNull then Null else Int(s.stored)
  }

  /** Construction, truth and visiting of a `Single` over `int` agree with the
      `Variant` holding the same content. */
  lemma SingleRefinesVariant(s: Single<int>, zero: int, n: int)
    ensures AsVariant(SingleDefault(zero)) == VariantDefault
    ensures AsVariant(SingleOf(n)) == Int(n)
    ensures SingleTruthy(s) == VariantTruthy(AsVariant(s))
    ensures SingleVisit(s).NullMarker? == VariantVisit(AsVariant(s)).NullMarker?
    ensures SingleVisit(s).Typed? ==> VariantVisit(AsVariant(s)) == Typed(Int(SingleVisit(s).value))
  {
  }

  /** Assigning to a default-constructed `Single` as written leaves it null:
      the assigned value is never seen by the visitor, whereas the `Variant`
      holds it. */
  lemma SingleAssignLosesValue(zero: int, n: int)
    ensures SingleVisit(SingleAssign(SingleDefault(zero), n)) == NullMarker
    ensures !SingleTruthy(SingleAssign(SingleDefault(zero), n))
    ensures AsVariant(SingleAssign(SingleDefault(zero), n)) != VariantAssign(VariantDefault, Int(n))
  {
  }

  /** The corrected assignment commutes with the abstraction: assigning to the
      `Single` and then abstracting is assigning to the `Variant`. */
  lemma SingleAssignFixedRefinesVariant(s: Single<int>, n: int)
    ensures AsVariant(SingleAssignFixed(s, n)) == VariantAssign(AsVariant(s), Int(n))
    ensures SingleTruthy(SingleAssignFixed(s, n))
  {
  }

  /** A substitution holds its `Single` in an optional: the first assignment
      constructs it from the value, later ones go through `operator=`. */
  function OptionalAssign(o: Option<Single<int>>, n: int): Option<Single<int>>
  {
    match o
    case None => Some(SingleOf(n))
    case Some(s) => Some(SingleAssign(s, n))
  }

  /** Every assignment sequence that starts from an empty substitution leaves
      it holding the last value, so the kept null flag is not observable
      through substitutions: the flag is false from the first assignment on. */
  lemma {:induction false} OptionalAssignHoldsLastValue(ns: seq<int>)
    requires ns != []
    ensures AssignAll(None, ns) == Some(SingleOf(ns[|ns| - 1]))
  {
    if |ns| > 1 {
      OptionalAssignHoldsLastValue(ns[..|ns| - 1]);
    }
  }

  function AssignAll(o: Option<Single<int>>, ns: seq<int>): Option<Single<int>>
  {
    if ns == [] then o else OptionalAssign(AssignAll(o, ns[..|ns| - 1]), ns[|ns| - 1])
  }
}
