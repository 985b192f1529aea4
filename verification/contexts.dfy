/** The evaluation context: one substitution slot per variable, a name
    index over the slots, and the results store the evaluator writes to. */
module Contexts {
  import opened Errors
  import opened Values
  import opened Nodes
  import opened Cache

  /** `Substitution`: the variable's operation id, its name and its value
      once one has been assigned. */
  datatype Substitution = Substitution(id: nat, name: string, value: Option<Value>)

  /** `operator bool`: a value has been assigned. */
  predicate IsSet(s: Substitution)
  {
    s.value.Some?
  }

  /** `operator=`: the slot holds the new value; id and name are kept. */
  function AssignValue(s: Substitution, v: Value): (r: Substitution)
    ensures IsSet(r) && r.value.value == v
    ensures r.id == s.id && r.name == s.name
  {
    s.(value := Some(v))
  }

  /** `eval()`: the assigned value, or `ExprBadSubst` naming the variable. */
  function SubstEval(s: Substitution): (r: Result<Value>)
    ensures r.Ok? <==> IsSet(s)
    ensures r.Ok? ==> r.value == s.value.value
    ensures r.Err? ==> r.error == ExprBadSubst(s.name)
  {
    match s.value
    case None => Err(ExprBadSubst(s.name))
    case Some(v) => Ok(v)
  }

  /** A `Var` node whose slot is unset evaluates to a bad argument naming
      the slot and wrapping the missing-substitution error. */
  lemma UnsetVarFails(subs: seq<Substitution>, k: nat)
    requires k < |subs| && !IsSet(subs[k])
    ensures LeafEval(k, SubstEval(subs[k])) == Err(OpBadArgument(k, ExprBadSubst(subs[k].name)))
  {
  }

  datatype Context = Context(subs: seq<Substitution>, byName: map<string, nat>, results: Results)

  /** One unset slot per `Var` node, in list order. */
  function SlotsOf(ops: seq<Node>): (r: seq<Substitution>)
    ensures |r| == |VarIds(ops)|
    ensures forall k :: 0 <= k < |r| ==>
      r[k].id == VarIds(ops)[k] && r[k].name == ops[VarIds(ops)[k]].name && !IsSet(r[k])
  {
    var vars := VarIds(ops);
    seq(|vars|, k requires 0 <= k < |vars| => Substitution(vars[k], ops[vars[k]].name, None))
  }

  /** The name index, filled in slot order: a later slot with the same name
      overwrites the entry. */
  function NameIndex(subs: seq<Substitution>): (m: map<string, nat>)
  {
    if subs == [] then map[]
    else NameIndex(subs[..|subs| - 1])[subs[|subs| - 1].name := |subs| - 1]
  }

  /** A name is indexed exactly when some slot carries it, and then names
      the last such slot. */
  lemma {:induction false} NameIndexIsLast(subs: seq<Substitution>, name: string)
    ensures name in NameIndex(subs) <==> exists k :: 0 <= k < |subs| && subs[k].name == name
    ensures name in NameIndex(subs) ==>
      var k := NameIndex(subs)[name];
      && k < |subs| && subs[k].name == name
      && forall j :: k < j < |subs| ==> subs[j].name != name
    decreases |subs|
  {
    if subs != [] {
      var init := subs[..|subs| - 1];
      NameIndexIsLast(init, name);
      if name != subs[|subs| - 1].name {
        if exists k :: 0 <= k < |subs| && subs[k].name == name {
          var k :| 0 <= k < |subs| && subs[k].name == name;
          assert init[k] == subs[k];
        }
      }
    }
  }

  /** `Context(ops)` with the store `Results(ops, cache)`, which is what
      `Expression::context(cache)` builds. */
  function NewContext(ops: seq<Node>, cache: bool): (c: Context)
    requires RefsBackward(ops)
    ensures c.subs == SlotsOf(ops)
    ensures c.results == Fresh(ops, cache)
  {
    var subs := SlotsOf(ops);
    Context(subs, NameIndex(subs), Fresh(ops, cache))
  }

  /** `find(name)` / `operator()(name)`: the slot of the variable, or
      `ContextBadVariable`. */
  function FindSlot(c: Context, name: string): (r: Result<nat>)
    ensures r.Err? ==> r.error == ContextBadVariable(name)
  {
    if name in c.byName then Ok(c.byName[name]) else Err(ContextBadVariable(name))
  }

  /** Looking a name up in a fresh context finds the last `Var` node
      declared with that name, and fails exactly when there is none. */
  lemma FindIsLastDeclared(ops: seq<Node>, cache: bool, name: string)
    requires RefsBackward(ops)
    ensures var c := NewContext(ops, cache);
      && (FindSlot(c, name).Err? <==> forall k :: 0 <= k < |c.subs| ==> c.subs[k].name != name)
      && (FindSlot(c, name).Ok? ==>
            var k := FindSlot(c, name).value;
            && k < |c.subs| && c.subs[k].name == name
            && forall j :: k < j < |c.subs| ==> c.subs[j].name != name)
  {
    NameIndexIsLast(SlotsOf(ops), name);
  }

  /** `operator bool`: `accumulate` of `valid && bool(subst)` from `true`. */
  function AllSetFrom(subs: seq<Substitution>, acc: bool): bool
  {
    if subs == [] then acc else AllSetFrom(subs[1..], acc && IsSet(subs[0]))
  }

  function FullySubstituted(c: Context): bool
  {
    AllSetFrom(c.subs, true)
  }

  lemma {:induction false} AllSetFromMeansEvery(subs: seq<Substitution>, acc: bool)
    ensures AllSetFrom(subs, acc) <==> acc && forall k :: 0 <= k < |subs| ==> IsSet(subs[k])
    decreases |subs|
  {
    if subs != [] {
      AllSetFromMeansEvery(subs[1..], acc && IsSet(subs[0]));
      assert forall k :: 1 <= k < |subs| ==> subs[1..][k - 1] == subs[k];
    }
  }

  /** A context converts to true exactly when every slot is set. */
  lemma FullySubstitutedIsEverySet(c: Context)
    ensures FullySubstituted(c) <==> forall k :: 0 <= k < |c.subs| ==> IsSet(c.subs[k])
  {
    AllSetFromMeansEvery(c.subs, true);
  }

  /** Assigning slot `k`: `context[k] = v`, followed by `invalidate(k)` on
      the results store. */
  function Assign(c: Context, k: nat, v: Value): (r: Context)
    requires k < |c.subs|
    ensures |r.subs| == |c.subs| && IsSet(r.subs[k]) && r.subs[k].value.value == v
    ensures forall j :: 0 <= j < |c.subs| && j != k ==> r.subs[j] == c.subs[j]
    ensures r.byName == c.byName
    ensures r.results == Invalidate(c.results, k)
  {
    c.(subs := c.subs[k := AssignValue(c.subs[k], v)], results := Invalidate(c.results, k))
  }

  /** Assigning every slot makes the context fully substituted. */
  lemma AssignAllSets(c: Context, k: nat, v: Value)
    requires k < |c.subs|
    requires forall j :: 0 <= j < |c.subs| && j != k ==> IsSet(c.subs[j])
    ensures FullySubstituted(Assign(c, k, v))
  {
    FullySubstitutedIsEverySet(Assign(c, k, v));
  }
}
