/** The extension function pool: functions identified by their position,
    a name → id index, dispatch by id, and concatenation of pools.

    An extension function reads its arguments through a getter that may
    carry state (the evaluator's result cache, or a record of what was
    fetched); the model captures functions that fetch their arguments left
    to right and may stop early, which is how the built-in one works. */
module Extensions {
  import opened Errors
  import opened Values

  /** Fetching argument `id` in state `s`: its result and the next state. */
  type Getter<!S> = (nat, S) -> (Result<Value>, S)

  /** An extension function: its name and its evaluation as a left-to-right
      consumer of argument results.  After each fetch `decide` sees the
      results so far and either answers or asks for the next argument;
      `finish` answers once every argument has been fetched. */
  datatype ExtFun = ExtFun(
    name: string,
    decide: seq<Result<Value>> -> Option<Result<Value>>,
    finish: seq<Result<Value>> -> Result<Value>)

  /** The functions of a pool in declaration order. */
  type Pool = seq<ExtFun>

  /** Runs `f` over the arguments `args`, `fetched` holding the results of
      the ones already fetched. */
  function Consume<S>(f: ExtFun, args: seq<nat>, fetched: seq<Result<Value>>, get: Getter<S>, s: S): (Result<Value>, S)
    requires |fetched| <= |args|
    decreases |args| - |fetched|
  {
    if |fetched| == |args| then (f.finish(fetched), s)
    else
      var step := get(args[|fetched|], s);
      var now := fetched + [step.0];
      match f.decide(now)
      case Some(out) => (out, step.1)
      case None => Consume(f, args, now, get, step.1)
  }

  // ---------------------------------------------------------------------
  // Name → id index.

  /** The name → id map built from the functions' names in declaration
      order; inserting a name already present keeps the earlier entry. */
  function Index(pool: Pool): map<string, nat>
  {
    if pool == [] then map[]
    else
      var m := Index(pool[..|pool| - 1]);
      var name := pool[|pool| - 1].name;
      if name in m then m else m[name := |pool| - 1]
  }

  /** `operator[](name)`: the id of `name`, or `ExprBadFunction`. */
  function Lookup(pool: Pool, name: string): Result<nat>
  {
    var index := Index(pool);
    if name !in index || index[name] >= |pool| then Err(ExprBadFunction(name))
    else Ok(index[name])
  }

  /** The index maps a name exactly when some function has it, and then to
      the first function with that name. */
  lemma {:induction false} IndexIsFirstOccurrence(pool: Pool, name: string)
    ensures name in Index(pool) <==> exists j :: 0 <= j < |pool| && pool[j].name == name
    ensures name in Index(pool) ==>
      var id := Index(pool)[name];
      && id < |pool| && pool[id].name == name
      && forall j :: 0 <= j < id ==> pool[j].name != name
  {
    if pool != [] {
      var init := pool[..|pool| - 1];
      IndexIsFirstOccurrence(init, name);
      if name in Index(init) {
        var id := Index(init)[name];
        assert pool[id] == init[id];
        forall j | 0 <= j < id
          ensures pool[j].name != name
        {
          assert pool[j] == init[j];
        }
      } else {
        forall j | 0 <= j < |pool| - 1
          ensures pool[j].name != name
        {
          assert pool[j] == init[j];
        }
      }
    }
  }

  /** Lookup answers the first id carrying the name, and fails with
      `ExprBadFunction` exactly when no function carries it. */
  lemma LookupFindsFirst(pool: Pool, name: string)
    ensures Lookup(pool, name).Err? <==> forall j :: 0 <= j < |pool| ==> pool[j].name != name
    ensures Lookup(pool, name).Err? ==> Lookup(pool, name).error == ExprBadFunction(name)
    ensures Lookup(pool, name).Ok? ==>
      var id := Lookup(pool, name).value;
      && id < |pool| && pool[id].name == name
      && forall j :: 0 <= j < id ==> pool[j].name != name
  {
    IndexIsFirstOccurrence(pool, name);
  }

  /** Ids are positions: with distinct names, function `i` is found under
      its own name as id `i`. */
  lemma LookupIsPosition(pool: Pool, i: nat)
    requires i < |pool|
    requires forall j, k :: 0 <= j < k < |pool| ==> pool[j].name != pool[k].name
    ensures Lookup(pool, pool[i].name) == Ok(i)
  {
    LookupFindsFirst(pool, pool[i].name);
  }

  // ---------------------------------------------------------------------
  // Dispatch by id.

  /** `Find<Idx, Rest...>::invoke`: tries the function at position `at`,
      and the next position when the id is not this one. */
  function Find<S>(pool: Pool, at: nat, fun: nat, args: seq<nat>, get: Getter<S>, s: S): (Result<Value>, S)
    requires at <= |pool|
    decreases |pool| - at
  {
    if at == |pool| then (Err(ExprBadFunctionId(fun)), s)
    else if fun == at then Consume(pool[at], args, [], get, s)
    else Find(pool, at + 1, fun, args, get, s)
  }

  /** `invoke(fun, arg, begin, end)`. */
  function Invoke<S>(pool: Pool, fun: nat, args: seq<nat>, get: Getter<S>, s: S): (Result<Value>, S)
  {
    Find(pool, 0, fun, args, get, s)
  }

  /** The search from position `at` reaches exactly function `fun` when it
      exists, and fails with `ExprBadFunctionId` otherwise, without fetching
      any argument. */
  lemma {:induction false} FindDispatches<S>(pool: Pool, at: nat, fun: nat, args: seq<nat>, get: Getter<S>, s: S)
    requires at <= |pool| && at <= fun
    ensures fun < |pool| ==> Find(pool, at, fun, args, get, s) == Consume(pool[fun], args, [], get, s)
    ensures fun >= |pool| ==> Find(pool, at, fun, args, get, s) == (Err(ExprBadFunctionId(fun)), s)
    decreases |pool| - at
  {
    if at < |pool| && fun != at {
      FindDispatches(pool, at + 1, fun, args, get, s);
    }
  }

  /** `invoke` runs exactly the function with the given id on the given
      getter and arguments; an id past the pool fails with
      `ExprBadFunctionId` and leaves the state alone. */
  lemma InvokeDispatches<S>(pool: Pool, fun: nat, args: seq<nat>, get: Getter<S>, s: S)
    ensures fun < |pool| ==> Invoke(pool, fun, args, get, s) == Consume(pool[fun], args, [], get, s)
    ensures fun >= |pool| ==> Invoke(pool, fun, args, get, s) == (Err(ExprBadFunctionId(fun)), s)
  {
    FindDispatches(pool, 0, fun, args, get, s);
  }

  // ---------------------------------------------------------------------
  // p + q.

  function Concat(p: Pool, q: Pool): (r: Pool)
    ensures |r| == |p| + |q|
  {
    p + q
  }

  /** `p + q` keeps `p`'s ids and gives `q`'s functions ids offset by `|p|`,
      both for dispatch and for lookup by name (a name in both resolves to
      `p`'s function). */
  lemma ConcatOffsetsIds<S>(p: Pool, q: Pool, fun: nat, name: string, args: seq<nat>, get: Getter<S>, s: S)
    ensures fun < |p| ==> Invoke(Concat(p, q), fun, args, get, s) == Invoke(p, fun, args, get, s)
    ensures |p| <= fun < |p| + |q| ==>
      Invoke(Concat(p, q), fun, args, get, s) == Invoke(q, fun - |p|, args, get, s)
    ensures Lookup(p, name).Ok? ==> Lookup(Concat(p, q), name) == Lookup(p, name)
    ensures Lookup(p, name).Err? && Lookup(q, name).Ok? ==>
      Lookup(Concat(p, q), name) == Ok(|p| + Lookup(q, name).value)
    ensures Lookup(p, name).Err? && Lookup(q, name).Err? ==> Lookup(Concat(p, q), name).Err?
  {
    var pq := Concat(p, q);
    InvokeDispatches(pq, fun, args, get, s);
    InvokeDispatches(p, fun, args, get, s);
    if fun >= |p| {
      InvokeDispatches(q, fun - |p|, args, get, s);
    }
    LookupFindsFirst(pq, name);
    LookupFindsFirst(p, name);
    LookupFindsFirst(q, name);
    if Lookup(p, name).Ok? {
      assert forall j :: 0 <= j < |p| ==> pq[j] == p[j];
    } else if Lookup(q, name).Ok? {
      assert forall j :: 0 <= j < |p| ==> pq[j] == p[j];
      assert forall j :: |p| <= j < |pq| ==> pq[j] == q[j - |p|];
      var id := Lookup(q, name).value;
      assert pq[|p| + id].name == name;
      assert forall j :: 0 <= j < |p| + id ==> pq[j].name != name;
    } else {
      forall j | 0 <= j < |pq|
        ensures pq[j].name != name
      {
        if j >= |p| {
          assert pq[j] == q[j - |p|];
        }
      }
    }
  }

  // ---------------------------------------------------------------------
  // Argument fetching order.

  /** A getter over fixed argument results that records each fetched id. */
  function Recording(results: nat -> Result<Value>): Getter<seq<nat>>
  {
    (id: nat, trace: seq<nat>) => (results(id), trace + [id])
  }

  /** A getter over fixed argument results, without state. */
  function Reading(results: nat -> Result<Value>): Getter<()>
  {
    (id: nat, u: ()) => (results(id), u)
  }

  /** Arguments are fetched left to right: what a function fetches is a
      prefix of its remaining arguments, and recording the fetches does not
      change the answer. */
  lemma {:induction false} ConsumeFetchesPrefix(f: ExtFun, args: seq<nat>, fetched: seq<Result<Value>>,
                                               results: nat -> Result<Value>, trace: seq<nat>)
    requires |fetched| <= |args|
    ensures var r := Consume(f, args, fetched, Recording(results), trace);
      && r.0 == Consume(f, args, fetched, Reading(results), ()).0
      && |trace| <= |r.1| <= |trace| + |args| - |fetched|
      && r.1 == trace + args[|fetched|..|fetched| + |r.1| - |trace|]
    decreases |args| - |fetched|
  {
    if |fetched| < |args| {
      var id := args[|fetched|];
      var now := fetched + [results(id)];
      if f.decide(now).None? {
        ConsumeFetchesPrefix(f, args, now, results, trace + [id]);
        var r := Consume(f, args, now, Recording(results), trace + [id]);
        var n := |r.1| - |trace|;
        assert args[|fetched|..|fetched| + n] == [id] + args[|now|..|now| + n - 1];
      } else {
        assert args[|fetched|..|fetched| + 1] == [id];
      }
    }
  }

  // ---------------------------------------------------------------------
  // Getters that agree.

  /** `get` answers as the stateless `ref` on every id of `refs`, from any
      state satisfying `inv`, and keeps `inv`. */
  ghost predicate Agree<S(!new)>(get: Getter<S>, ref: Getter<()>, inv: S -> bool, refs: seq<nat>)
  {
    forall r, t :: r in refs && inv(t) ==> get(r, t).0 == ref(r, ()).0 && inv(get(r, t).1)
  }

  /** One use of `Agree`, from a state that may itself come out of a getter. */
  lemma AgreeAt<S(!new)>(get: Getter<S>, ref: Getter<()>, inv: S -> bool, refs: seq<nat>, r: nat, t: S)
    requires Agree(get, ref, inv, refs) && r in refs && inv(t)
    ensures get(r, t).0 == ref(r, ()).0 && inv(get(r, t).1)
  {
  }

  /** Two getters that answer alike on the arguments (the first one keeping
      an invariant of its state) make a function answer alike. */
  lemma {:induction false} ConsumeSimulates<S(!new)>(f: ExtFun, args: seq<nat>, fetched: seq<Result<Value>>,
                                              get: Getter<S>, s: S, ref: Getter<()>, inv: S -> bool)
    requires |fetched| <= |args| && inv(s)
    requires Agree(get, ref, inv, args)
    ensures Consume(f, args, fetched, get, s).0 == Consume(f, args, fetched, ref, ()).0
    ensures inv(Consume(f, args, fetched, get, s).1)
    decreases |args| - |fetched|
  {
    if |fetched| < |args| {
      var id := args[|fetched|];
      var step := get(id, s);
      AgreeAt(get, ref, inv, args, id, s);
      var now := fetched + [step.0];
      var other := ref(id, ());
      assert fetched + [other.0] == now;
      assert other.1 == ();
      if f.decide(now).None? {
        ConsumeSimulates(f, args, now, get, step.1, ref, inv);
      }
    }
  }

  lemma InvokeSimulates<S(!new)>(pool: Pool, fun: nat, args: seq<nat>, get: Getter<S>, s: S, ref: Getter<()>, inv: S -> bool)
    requires inv(s)
    requires Agree(get, ref, inv, args)
    ensures Invoke(pool, fun, args, get, s).0 == Invoke(pool, fun, args, ref, ()).0
    ensures inv(Invoke(pool, fun, args, get, s).1)
  {
    InvokeDispatches(pool, fun, args, get, s);
    InvokeDispatches(pool, fun, args, ref, ());
    if fun < |pool| {
      ConsumeSimulates(pool[fun], args, [], get, s, ref, inv);
    }
  }
}
