/** The built-in extension function `avail`: the first argument whose value
    is non-null, an argument error met before it, or null. */
module Functions {
  import opened Errors
  import opened Values
  import opened Stores
  import opened Extensions

  const AvailName: string := "avail"

  /** After each fetch: an error is returned as is, a non-null value is the
      answer, a null value asks for the next argument. */
  function AvailDecide(fetched: seq<Result<Value>>): Option<Result<Value>>
  {
    if fetched == [] then None
    else
      var last := fetched[|fetched| - 1];
      if last.Err? || VariantTruthy(last.value) then Some(last) else None
  }

  /** Every argument null, or none at all: a default-constructed store, null. */
  function AvailFinish(fetched: seq<Result<Value>>): Result<Value>
  {
    Ok(VariantDefault)
  }

  const Avail: ExtFun := ExtFun(AvailName, AvailDecide, AvailFinish)

  /** The pool of built-in functions. */
  const Builtin: Pool := [Avail]

  /** A result that ends the search: an error or a non-null value. */
  predicate Decisive(r: Result<Value>)
  {
    r.Err? || r.value != Null
  }

  /** What `avail` promises over the arguments' results in order. */
  function AvailSpec(results: seq<Result<Value>>): (r: Result<Value>)
    ensures r == Ok(Null) || exists i :: 0 <= i < |results| && r == results[i] && Decisive(r)
  {
    if results == [] then Ok(Null)
    else if Decisive(results[0]) then results[0]
    else AvailSpec(results[1..])
  }

  /** The number of arguments fetched: up to and including the first
      decisive one, or all of them. */
  function Fetched(results: seq<Result<Value>>): (n: nat)
    ensures n <= |results|
    ensures forall i :: 0 <= i < n - 1 ==> !Decisive(results[i])
    ensures n < |results| ==> n > 0 && Decisive(results[n - 1])
  {
    if results == [] then 0
    else if Decisive(results[0]) then 1
    else 1 + Fetched(results[1..])
  }

  function Results(args: seq<nat>, results: nat -> Result<Value>): (rs: seq<Result<Value>>)
    ensures |rs| == |args| && forall i :: 0 <= i < |args| ==> rs[i] == results(args[i])
  {
    seq(|args|, i requires 0 <= i < |args| => results(args[i]))
  }

  lemma DecideStep(fetched: seq<Result<Value>>, r: Result<Value>)
    ensures AvailDecide(fetched + [r]) == if Decisive(r) then Some(r) else None
  {
    assert (fetched + [r])[|fetched|] == r;
  }

  /** Consuming the arguments after a run of null ones gives the reference
      answer over the remaining arguments. */
  lemma {:induction false} AvailAnswers(args: seq<nat>, fetched: seq<Result<Value>>, results: nat -> Result<Value>)
    requires |fetched| <= |args|
    ensures Consume(Avail, args, fetched, Reading(results), ()).0 == AvailSpec(Results(args[|fetched|..], results))
    decreases |args| - |fetched|
  {
    var rest := Results(args[|fetched|..], results);
    if |fetched| < |args| {
      var r := results(args[|fetched|]);
      var now := fetched + [r];
      DecideStep(fetched, r);
      assert rest[0] == r;
      if !Decisive(r) {
        AvailAnswers(args, now, results);
        assert Results(args[|now|..], results) == rest[1..];
      }
    } else {
      assert rest == [];
    }
  }

  /** One step of `avail` over the recording getter. */
  lemma RecordingStep(args: seq<nat>, fetched: seq<Result<Value>>, results: nat -> Result<Value>, trace: seq<nat>)
    requires |fetched| < |args|
    ensures var id := args[|fetched|];
      var r := results(id);
      Consume(Avail, args, fetched, Recording(results), trace)
      == if Decisive(r) then (r, trace + [id])
         else Consume(Avail, args, fetched + [r], Recording(results), trace + [id])
  {
    DecideStep(fetched, results(args[|fetched|]));
  }

  lemma ResultsTail(args: seq<nat>, a: nat, results: nat -> Result<Value>)
    requires a < |args|
    ensures var rest := Results(args[a..], results);
      rest != [] && rest[0] == results(args[a]) && rest[1..] == Results(args[a + 1..], results)
  {
    var rest := Results(args[a..], results);
    assert rest[0] == results(args[a]);
  }

  /** Recording one more argument extends the trace by the next slice element. */
  lemma TraceCons(args: seq<nat>, a: nat, n: nat, trace: seq<nat>)
    requires a + 1 + n <= |args|
    ensures trace + [args[a]] + args[a + 1..a + 1 + n] == trace + args[a..a + 1 + n]
  {
    assert args[a..a + 1 + n] == [args[a]] + args[a + 1..a + 1 + n];
  }

  /** Consuming the arguments after a run of null ones fetches exactly the
      reference count of the remaining arguments, in order. */
  lemma {:induction false} AvailFetches(args: seq<nat>, fetched: seq<Result<Value>>,
                                        results: nat -> Result<Value>, trace: seq<nat>)
    requires |fetched| <= |args|
    ensures Consume(Avail, args, fetched, Recording(results), trace).1
      == trace + args[|fetched|..|fetched| + Fetched(Results(args[|fetched|..], results))]
    decreases |args| - |fetched|
  {
    if |fetched| < |args| {
      var a := |fetched|;
      var r := results(args[a]);
      RecordingStep(args, fetched, results, trace);
      ResultsTail(args, a, results);
      if !Decisive(r) {
        var n := Fetched(Results(args[a + 1..], results));
        AvailFetches(args, fetched + [r], results, trace + [args[a]]);
        TraceCons(args, a, n, trace);
      } else {
        TraceCons(args, a, 0, trace);
      }
    } else {
      assert Results(args[|fetched|..], results) == [];
    }
  }

  /** `avail` answers the first non-null argument value, an argument error
      met before any, or null when every argument is null or there are none;
      it fetches the arguments in order and none after the first decisive
      one. */
  lemma AvailMeetsSpec(args: seq<nat>, results: nat -> Result<Value>, trace: seq<nat>)
    ensures Consume(Avail, args, [], Reading(results), ()).0 == AvailSpec(Results(args, results))
    ensures Consume(Avail, args, [], Recording(results), trace).1
      == trace + args[..Fetched(Results(args, results))]
  {
    AvailAnswers(args, [], results);
    AvailFetches(args, [], results, trace);
    assert args[0..] == args;
  }

  /** The reference answer, stated through positions: the first decisive
      result, and null when there is none. */
  lemma AvailSpecIsFirstDecisive(results: seq<Result<Value>>, i: nat)
    requires i < |results| && Decisive(results[i])
    requires forall j :: 0 <= j < i ==> !Decisive(results[j])
    ensures AvailSpec(results) == results[i]
    ensures Fetched(results) == i + 1
  {
    if i > 0 {
      AvailSpecIsFirstDecisive(results[1..], i - 1);
    }
  }

  lemma AvailSpecAllNull(results: seq<Result<Value>>)
    requires forall j :: 0 <= j < |results| ==> !Decisive(results[j])
    ensures AvailSpec(results) == Ok(Null)
    ensures Fetched(results) == |results|
  {
    if results != [] {
      AvailSpecAllNull(results[1..]);
    }
  }

  /** `avail` is registered under its name as id 0 of the built-in pool. */
  lemma AvailIsRegistered()
    ensures Lookup(Builtin, "avail") == Ok(0)
    ensures Builtin[0].name == "avail"
  {
    LookupIsPosition(Builtin, 0);
  }
}
