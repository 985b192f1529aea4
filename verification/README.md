# pmql expression engine — a Dafny model

This project models the core of the `pmql/` expression engine:

- the **builder**, an append-only operation list with structural deduplication, and its validation of the graph from the root;
- the **operation nodes** (`Const`, `Var`, the 19 catalogue operators as `Unary`/`Binary`, `Ternary`, `Extension`), with their ordered refs and their evaluation over a "fetch the result of a ref" getter;
- the **cached evaluator**: the depth-first evaluation of the root over a per-context `Results` store (outcomes, validity bitmap, one invalidation mask per variable built by reachability);
- the **context**: the substitution slots, lookup by name, and the "fully substituted" check;
- the **value layer**: nullable values (`Null | Int | Bool`), the mixed null/typed operator overloads, the `Single`/`Variant` stores, the extension pool (name → id, dispatch by id, concatenation) and the built-in `avail`.

Each operation is a pure function on immutable datatypes. The store is threaded through evaluation as a value, so the cache can be compared with a reference evaluation that has no cache.

Modules follow the headers:

| module | file | models |
|---|---|---|
| `Errors` | errors.dfy | error kinds, `Result`, `Option` |
| `Ops` | ops.dfy | `pmql/ops.h`: catalogue, arity, signs, `identify` |
| `Values` | values.dfy | values, operator application, `pmql/null.h` axioms |
| `Stores` | stores.dfy | `pmql/store.h`: `Single`, `Variant` |
| `Extensions` | extensions.dfy | `pmql/extensions.h`: `Pool` |
| `Functions` | functions.dfy | `pmql/functions.h`: `avail` |
| `Nodes` | nodes.dfy | `pmql/op.h`: node kinds, `refers`, `eval`, hash content |
| `Bitmaps` | bitmaps.dfy | `pmql/bitmap.h` as a `seq<bool>` |
| `Words` | words.dfy | `pmql/bitmap.h` word buffer (64-bit words) |
| `Relations` | relations.dfy | `pmql/results.h`: `relations`, `invalidations` |
| `Cache` | cache.dfy | `pmql/results.h`: `Results` |
| `Contexts` | contexts.dfy | `pmql/context.h` |
| `Expressions` | expressions.dfy | `pmql/expression.h` |
| `Sessions` | sessions.dfy | sequences of assignments and evaluations on one context |
| `Builders` | builders.dfy | `pmql/builder.h`: append, constant, var, op, branch, fun |
| `Validation` | validation.dfy | `pmql/builder.h`: visit, build, raw-ingredients constructor |

Operator application on typed values is a parameter `Semantics` (`apply` answers `None` when no overload exists, which becomes `OP_INCOMPATIBLE_TYPES`). The only constraints on it are the null overloads of `pmql/null.h`, stated as the predicate `Values.NullAxioms`. `Values.Sample` is a concrete semantics that satisfies them and is used by the worked examples.

The shown `pmql/context.h` holds a plain vector of results and has a one-argument constructor. `pmql/expression.h` builds `Context{ops, cache}` and uses each slot as a `Results` handle. The model follows `pmql/expression.h`: a context is the substitution slots plus a `Results` store. No shown file calls `Results::invalidate` when a slot is assigned. `Contexts.Assign` is the composition "set the slot, then `invalidate(k)`" that the `Results` documentation describes (`pmql/results.h:13-15`); this composition is a model choice.

## Model

| member | source | states |
|---|---|---|
| Ops.CatalogueIsClosed | pmql/ops.h:16-35 | the catalogue has 19 operators, every operator occurs in it, and none occurs twice |
| Ops.ArityPartition | pmql/ops.h:16-35 | exactly negate, logical_not and bit_not have arity 1 (catalogue positions 5, 14, 18); the other 16 have arity 2 |
| Ops.CatalogueIndex | pmql/ops.h:16-35 | every operator has a catalogue position holding it |
| Ops.CatalogueIndexInverse | pmql/ops.h:16-35 | the position function inverts indexing into the catalogue |
| Ops.SignMaxIsLongestSign | pmql/ops.h:127-131 | `signmax` is the length of the longest sign |
| Ops.MaxSignLength | pmql/ops.h:127-131 | the computed maximum bounds every sign length and is reached by some sign |
| Ops.LeadingSpaces | pmql/ops.h:136 | the prefix removed is all spaces and is followed by a non-space or the end |
| Ops.Window | pmql/ops.h:133-138 | when `pos` is inside the source, the searched text is a slice after `pos` and its leading spaces, at most `signmax` long; otherwise it is the whole source |
| Ops.FindFrom | pmql/ops.h:140-146 | the answer is the first occurrence of the sign at or after the start, and `None` exactly when there is none |
| Ops.FirstMatchCorrect | pmql/ops.h:140-146 | the match is the first operator, in list order, whose sign occurs in the window, with that sign's position; no match means no sign occurs |
| Ops.Identify | pmql/ops.h:124-149 | no match leaves `pos` unchanged and means that no sign occurs; a match is the first catalogue operator whose sign occurs, and `pos` becomes the window-relative start plus the sign length |
| Ops.IdentifyNoneIffNoSign | pmql/ops.h:149 | `identify` reports nothing exactly when no operator sign occurs in the window |
| Ops.IdentifyGreaterEqualAsGreater | pmql/ops.h:140-146 | `>=` is reported as `greater` with position 1 |
| Ops.IdentifyPositionIsWindowRelative | pmql/ops.h:143 | on "a + b" from position 1 the reported position is 1, not 3 past the `+` |
| Ops.MunchIndex | pmql/ops.h:121 | longest-first order: exactly the two-character signs come first |
| Ops.IdentifyFixedEndsPastSign | pmql/ops.h:121 | the corrected matcher leaves `pos` just past an occurrence of the sign in the source, not before the starting `pos` |
| Ops.IdentifyFixedIsLongest | pmql/ops.h:121 | the corrected matcher reports a sign no longer sign beats, and reports nothing exactly when no sign occurs |
| Ops.IdentifyFixedGreaterEqual | pmql/ops.h:121 | the corrected matcher reports `>=` as `greater_equal`, ending at 2 |
| Ops.IdentifyFixedPosition | pmql/ops.h:121 | the corrected matcher on "a + b" from 1 ends at 3 |
| Values.NullAbsorbsArithmetic | pmql/null.h:27-45 | `+ - * / %` with one null and one typed operand give null, in either order |
| Values.NullSortsBelowTyped | pmql/null.h:49-70 | typed against null: `==` is false, `!=` is true, and null orders below every typed value, in either operand order |
| Values.SampleObeysNullAxioms | pmql/null.h:16-70 | the null axioms are consistent: a concrete semantics satisfies them, with null converting to false |
| Stores.SingleDefault | pmql/store.h:23-37 | a default `Single` is null, converts to false and is visited as the null marker |
| Stores.SingleOf | pmql/store.h:153-165 | a `Single` built from a value converts to true and is visited as that value |
| Stores.SingleAssignLosesValue | pmql/store.h:167-173 | a default `Single` assigned a number still visits as null, unlike a `Variant` |
| Stores.SingleAssignFixed | pmql/store.h:167-173 | the corrected assignment is visited as the assigned value |
| Stores.SingleAssignFixedRefinesVariant | pmql/store.h:233-239 | the corrected `Single` assignment agrees with `Variant` assignment and converts to true |
| Stores.SingleRefinesVariant | pmql/store.h:241-245 | `Single<int>` and the variant agree on default, construction, truth and visiting |
| Stores.OptionalAssignHoldsLastValue | pmql/store.h:153-173 | assigning into an empty optional builds the store, so a series of assignments holds the last value |
| Extensions.IndexIsFirstOccurrence | pmql/extensions.h:162-167 | a name is indexed exactly when some function carries it, under the first such id |
| Extensions.LookupFindsFirst | pmql/extensions.h:209-219 | lookup fails with `EXPR_BAD_FUNCTION` exactly when no function has the name, and otherwise answers the first id with it |
| Extensions.LookupIsPosition | pmql/extensions.h:181-187 | with distinct names, function `i` has id `i` |
| Extensions.FindDispatches | pmql/extensions.h:45-76 | the recursive search calls exactly function `fun`, and fails with `EXPR_BAD_FUNCTION_ID` past the end |
| Extensions.InvokeDispatches | pmql/extensions.h:221-226 | `invoke(id)` runs exactly the id-th function on the given getter and arguments, and fails with `EXPR_BAD_FUNCTION_ID` for id ≥ n |
| Extensions.ConcatOffsetsIds | pmql/extensions.h:189-195 | `p + q` keeps p's ids and gives q's functions ids offset by p's size, for dispatch and for lookup |
| Extensions.ConsumeFetchesPrefix | pmql/expression.h:123-138 | an extension fetches a prefix of its arguments, in order, and its result does not depend on recording the fetches |
| Extensions.InvokeSimulates | pmql/expression.h:123-138 | an extension's result depends only on what the getter answers for its arguments |
| Functions.AvailSpec | pmql/functions.h:30-48 | `avail`'s answer is null or the result of some argument that is an error or non-null |
| Functions.Fetched | pmql/functions.h:33-45 | the number of arguments fetched stops right after the first error or non-null result |
| Functions.AvailMeetsSpec | pmql/functions.h:30-48 | `avail` answers its specification and fetches exactly the arguments up to the first decisive one |
| Functions.AvailSpecIsFirstDecisive | pmql/functions.h:35-44 | the first error or non-null result is the answer, and nothing after it is fetched |
| Functions.AvailSpecAllNull | pmql/functions.h:47 | with every argument null, or none, the answer is null and every argument is fetched |
| Functions.AvailIsRegistered | pmql/functions.h:17-20 | the built-in pool registers `avail` under id 0 |
| Nodes.KeyIsContentButName | pmql/op.h:581-637 | two nodes share a dedup key exactly when they agree on everything but an extension's display name |
| Nodes.SameKeySameEval | pmql/op.h:581-637 | nodes with the same key evaluate identically, so deduplication is sound |
| Nodes.SingleFetch | pmql/op.h:350-423 | leaves and unary nodes fetch exactly their one ref; a unary node wraps a failed fetch and otherwise applies its functor |
| Nodes.BinaryFetchOrder | pmql/op.h:448-471 | binary fetches lhs first and stops there when it fails; an rhs failure is wrapped; otherwise the functor is applied |
| Nodes.TernaryFetchesSelectedBranch | pmql/op.h:495-524 | a failing condition is wrapped, a condition without truth value gives `OP_TERNARY_BAD_CONDITION`, otherwise only the selected branch is fetched and returned unwrapped |
| Nodes.FetchesOnlyRefs | pmql/op.h:549-562 | every node fetches only ids from its own `refers` list |
| Nodes.EvalNodeSimulates | pmql/op.h:401-562 | a node's outcome depends only on what the getter answers for its refs |
| Nodes.VarIds | pmql/results.h:161-185 | the variables are the `Var` positions in list order, each one listed |
| Bitmaps.New | pmql/bitmap.h:272-277 | `Bitmap(count, fill)` has `count` bits, all equal to `fill` |
| Bitmaps.Set | pmql/bitmap.h:302-309 | `set(i)` sets bit `i` and no other |
| Bitmaps.Reset | pmql/bitmap.h:311-318 | `reset(i)` clears bit `i` and no other |
| Bitmaps.Assign | pmql/bitmap.h:216-225 | assigning through the bit proxy writes that bit only |
| Bitmaps.Not | pmql/bitmap.h:330-346 | `~` keeps the size and flips every bit |
| Bitmaps.And | pmql/bitmap.h:358-366 | `&=` keeps the size and ANDs the bits both maps have; on maps of equal size, the only use (results.h:226), that is every bit |
| Bitmaps.Or | pmql/bitmap.h:348-356 | `|=` keeps the size and ORs the bits both maps have; on maps of equal size that is every bit |
| Bitmaps.IterateYieldsBits | pmql/bitmap.h:228-263 | iteration yields `test(pos) … test(size-1)` |
| Words.TestReadsBit | pmql/bitmap.h:294-300 | `test(i)` reads bit `i % 64` of word `i / 64` |
| Words.NewRefines | pmql/bitmap.h:272-277 | the word buffer of `Bitmap(count, fill)` reads as `count` bits equal to `fill` |
| Words.IntShiftOne | pmql/bitmap.h:307 | `Elem(1 << offset)` is the single bit `offset` below 31, and at offset 31 it sign-extends into all bits from 31 up |
| Words.AsWrittenAgreesBelow31 | pmql/bitmap.h:302-318 | below offset 31 in a word, `set`/`reset` as written equal the corrected ones |
| Words.AsWrittenTouchesOtherBits | pmql/bitmap.h:307 | `set(31)` sets bit 32, `reset(31)` clears bit 32, and `set(40)` sets bit 8 but not bit 40 |
| Words.SetBitsAsWrittenAgreesBelow31 | pmql/bitmap.h:302-309 | on a bitmap of at most 31 bits, `set(i)` as written is the abstract `set(i)` |
| Words.SetBitsAsWrittenSignExtends | pmql/bitmap.h:307 | `set(i)` as written at word offset 31 also sets every later bit of the same word |
| Words.SetBit | pmql/bitmap.h:302-309 | the corrected `set(i)` sets bit `i` and changes no other |
| Words.ResetBit | pmql/bitmap.h:311-318 | the corrected `reset(i)` clears bit `i` and changes no other |
| Words.SetRefines | pmql/bitmap.h:302-309 | the corrected word-level `set` is the abstract `set` |
| Words.ResetRefines | pmql/bitmap.h:311-318 | the corrected word-level `reset` is the abstract `reset` |
| Words.TrailingMaskAsWritten | pmql/bitmap.h:341 | `(FILL_TRUE << t) >> t` keeps the low `64 - t` bits |
| Words.TrailingMask | pmql/bitmap.h:338-343 | the corrected mask keeps the low `t` bits |
| Words.NotWith | pmql/bitmap.h:330-346 | `~` complements every word and masks the last partial word |
| Words.NotBit | pmql/bitmap.h:330-346 | the corrected `~` flips every bit below the size |
| Words.NotRefines | pmql/bitmap.h:330-346 | the corrected word-level `~` is the abstract `~` |
| Words.NotAsWrittenBit | pmql/bitmap.h:330-346 | `~` as written flips every bit when the last word holds at most 32 bits |
| Words.NotAsWrittenAgreesUpToHalfWord | pmql/bitmap.h:330-346 | `~` as written matches the abstract `~` under that bound |
| Words.NotAsWrittenClearsBitsBelowSize | pmql/bitmap.h:341 | on 40 clear bits, `~` as written leaves bit 30 clear, where the corrected one sets it |
| Words.CombineWith | pmql/bitmap.h:348-366 | `&=`/`|=` combine the shared words and keep the others |
| Words.AndAssignRefines | pmql/bitmap.h:358-366 | word-level `&=` is the abstract AND on equal sizes and keeps bits past the other buffer |
| Words.OrAssignRefines | pmql/bitmap.h:348-356 | word-level `|=` is the abstract OR on equal sizes and keeps bits past the other buffer |
| Words.CombineShorterUsesPadding | pmql/bitmap.h:348-366 | with a shorter other map the padding bits of its last word take part: `Bitmap(40, false) \|= Bitmap(10, true)` sets bit 20 and `Bitmap(40, true) &= Bitmap(10, false)` clears it, unlike the abstract Or and And |
| Relations.LeafDepends | pmql/results.h:135-142 | a `Const` depends on no variable, and a `Var` only on itself |
| Relations.OperatorDepends | pmql/results.h:143-151 | an operator depends on a variable exactly when one of its refs does |
| Relations.AnyReachesExists | pmql/results.h:145-148 | reaching through a ref list means some ref reaches |
| Relations.RelationsFixedCorrect | pmql/results.h:118-154 | the non-short-circuiting marking marks exactly the nodes that reach the variable, and reports whether the node does |
| Relations.RefsFixedCorrect | pmql/results.h:145-150 | the loop over refs visits every ref and marks the node when any ref reaches the variable |
| Relations.RelationsAsWrittenSound | pmql/results.h:124-154 | the short-circuiting `relations` as written reports exactly whether the node depends on the variable, marks only dependents, keeps earlier marks and changes nothing after the node |
| Relations.RefsAsWrittenSound | pmql/results.h:145-150 | the as-written loop over refs marks the node exactly when it was marked or some ref depends on the variable, and marks only dependents |
| Relations.InvalidationsMarkDependents | pmql/results.h:156-185 | bit `i` of variable `k`'s map is set exactly when the root reaches `i` and `i` depends on `k`; the inverse map is its complement |
| Relations.InvalidationsAsWrittenSound | pmql/results.h:156-185 | as written, a variable's map marks only operations depending on it, with no dangling operation only operations the corrected map marks, and agrees with it on the last operation |
| Relations.InvalidationsExact | pmql/results.h:175-178 | with every node reachable, a clear bit of the inverse mask means exactly "depends on the variable" |
| Relations.DiamondAsWrittenSteps | pmql/results.h:145-148 | on `negate(a) + bit_not(a)` the short-circuit skips the second argument once the first marked the root |
| Relations.ShortCircuitMissesDependent | pmql/results.h:147 | the as-written map of `a` leaves `bit_not(a)` unmarked although it depends on `a` |
| Relations.InvalidationSingle | test/invalidation.t.cpp:29-52 | the map of `a` in `(-42 + -a)` is `0 1 1 0 1`, as written and corrected |
| Relations.InvalidationDouble | test/invalidation.t.cpp:54-81 | the maps of `a` and `b` in `((-42 + -a) - b)` are `0 1 1 0 1 0 1` and `0 0 0 0 0 1 1`, as written and corrected |
| Cache.Fresh | pmql/results.h:191-198 | a new store has one mask per variable, every node invalid, and every read `EXPR_NOT_READY` |
| Cache.FreshAsWritten | pmql/results.h:191-198 | the same over the short-circuiting masks |
| Cache.Invalidate | pmql/results.h:218-227 | with caching off or an unknown variable nothing changes; otherwise a node stays valid exactly when it was valid and its mask bit is set; outcomes are kept |
| Cache.Write | pmql/results.h:243-253 | a handle assignment stores the outcome and touches no other node |
| Cache.WriteAsWritten | pmql/results.h:243-253 | the handle assignment through the as-written `set` stores the same outcome as the corrected one, keeps the masks and the size of the validity map |
| Cache.WriteAsWrittenAgreesBelow31 | pmql/results.h:243-253 | on a store of at most 31 operations, the handle assignment through the as-written `set` is the corrected one |
| Cache.WriteAsWrittenValidatesLater | pmql/results.h:247-250 | with caching on, storing operation `op` at word offset 31 through the as-written `set` marks a later operation of the same word valid, which then reads its old outcome; the corrected write leaves that validity unchanged |
| Cache.Read | pmql/results.h:261-265 | with caching off, or on a valid node, a read answers the stored outcome; with caching on, an invalid node reads `EXPR_NOT_READY` |
| Cache.ReadAfterWrite | pmql/results.h:243-265 | reading a written handle answers the written outcome, error or success; the node is valid exactly when caching is on; every other node reads as before |
| Cache.ReadAfterInvalidate | pmql/results.h:218-233 | invalidation never changes what a still-valid node reads, and with caching off changes nothing |
| Cache.InvalidateDropsDependents | pmql/results.h:10-15 | with the corrected masks, invalidating variable `k` drops exactly the valid nodes that depend on it |
| Contexts.UnsetVarFails | pmql/op.h:359-363 | through a `Var` an unset slot surfaces as `OP_BAD_ARGUMENT` wrapping `EXPR_BAD_SUBST` |
| Contexts.NameIndexIsLast | pmql/context.h:199 | the name map holds exactly the slot names, each under its last slot |
| Contexts.FindSlot | pmql/context.h:269-292 | an unknown name fails with `CONTEXT_BAD_VARIABLE` |
| Contexts.FindIsLastDeclared | pmql/context.h:243-255 | lookup by name answers the last-declared variable with that name, and fails exactly when none has it |
| Contexts.AllSetFromMeansEvery | pmql/context.h:209-217 | the `accumulate` fold is true exactly when it starts true and every slot is set |
| Contexts.FullySubstitutedIsEverySet | pmql/context.h:209-217 | a context converts to true exactly when every slot is set |
| Contexts.AssignAllSets | pmql/context.h:209-217 | assigning the last unset slot makes the context fully substituted |
| Expressions.EvalCorrect | pmql/expression.h:90-150 | evaluating a node stores and answers its reference result, keeps every valid outcome correct, only adds validity, and with caching on marks the node valid |
| Expressions.CacheOffRecomputes | pmql/expression.h:94-97 | with caching off evaluation still answers the reference result and leaves nothing valid, so every call recomputes |
| Expressions.EvalLeaf | pmql/expression.h:105-121 | a `Const` stores its pool value and a `Var` its slot's value, wrapped as a leaf |
| Expressions.EvalUnary | pmql/expression.h:140-147 | a unary node evaluates and reads its argument, then stores the wrapped failure or the applied functor |
| Expressions.EvalBinary | pmql/expression.h:140-147 | a binary node evaluates lhs, then rhs only when lhs succeeded, then stores the outcome |
| Expressions.DenoteIgnoresOtherSlots | pmql/results.h:118-123 | changing a slot changes no node that does not depend on its variable |
| Sessions.FreshInStep | pmql/results.h:191-198 | a new context is sized for the expression, carries the corrected masks and is coherent |
| Sessions.AssignKeepsInStep | pmql/results.h:218-227 | assignment followed by invalidation keeps every valid outcome equal to the reference under the new slots |
| Sessions.RunInStep | pmql/expression.h:166-174 | each evaluation answers the reference result of the root and keeps the store coherent |
| Sessions.SessionIsReplay | pmql/results.h:10-15 | a session of assignments and evaluations answers what evaluating afresh at each step answers |
| Sessions.CacheIsTransparent | pmql/results.h:10-15 | on a built expression, caching on and caching off answer the same in every session |
| Sessions.DiamondSessionCorrected | pmql/results.h:10-15 | on `negate(a) + bit_not(a)`, a=1 then a=2 answers −3 then −5 with caching on or off |
| Sessions.StaleCacheAsWritten | pmql/results.h:147 | with the as-written masks the cached session answers −3 then −4, while the uncached one answers −3 then −5 |
| Sessions.WideListAsWritten | pmql/results.h:247-250 | on 31 chained negates of a constant, `bit_not` of it, and their sum, storing operation 31 in a fresh store as written marks operation 32 valid with `EXPR_NOT_READY`, evaluating it computes nothing, and the sum then fails with a bad argument naming 32, where the reference answers −3 |
| Builders.NewBuilder | pmql/builder.h:357-361 | a new builder is empty and satisfies the builder invariant |
| Builders.AppendDedups | pmql/builder.h:288-299 | a new node gets id = the list length before the call; a node with an existing key returns the existing id and changes nothing |
| Builders.ConstantPushes | pmql/builder.h:429-440 | a constant always appends a new `Const` whose index is the position its value is pushed to |
| Builders.VariableNumbers | pmql/builder.h:442-452 | `var()` always appends a new `Var` numbered by the variables before it: 0, 1, 2, … in call order |
| Builders.CheckRefs | pmql/builder.h:229-239 | ids check out exactly when all are below the list length; otherwise the first unknown id is reported as `BUILDER_REF_TO_UNKNOWN` |
| Builders.Op | pmql/builder.h:454-466 | `op` fails exactly when some argument id is unknown, and then appends nothing |
| Builders.OpAppends | pmql/builder.h:454-466 | with known ids, `op` names a node of that operator over exactly those ids and keeps the invariant |
| Builders.Branch | pmql/builder.h:468-482 | `branch` fails exactly when an id is unknown, names the first one, and appends nothing |
| Builders.BranchAppends | pmql/builder.h:468-482 | with known ids, `branch` names a ternary over exactly those ids and keeps the invariant |
| Builders.Fun | pmql/builder.h:484-520 | `fun` checks ids first (`BUILDER_REF_TO_UNKNOWN`), then the name (`EXPR_BAD_FUNCTION`), and appends nothing on failure |
| Builders.FunAppends | pmql/builder.h:484-520 | with known ids and a registered name, `fun` names an extension node calling that name's id on exactly those ids |
| Builders.PushKeepsGood | pmql/builder.h:288-299 | pushing a node under a new key keeps refs backward, the key map exact, variables canonical and constants in range |
| Validation.Visit | pmql/builder.h:301-355 | the visit marks at least what was marked and always marks the node itself |
| Validation.VisitCorrect | pmql/builder.h:301-355 | on backward refs the visit succeeds exactly when every reachable leaf is in range, then marks exactly the reachable nodes; otherwise it reports `BUILDER_BAD_SUBSTITUTION` for a reachable leaf out of range |
| Validation.VisitRefsCorrect | pmql/builder.h:331-346 | the loop over refs succeeds exactly when every leaf some ref reaches is in range, and marks what the refs reach |
| Validation.FirstClear | pmql/builder.h:540-543 | the answer is the smallest unmarked node, or none when all are marked |
| Validation.Build | pmql/builder.h:522-555 | an empty list fails with `BUILDER_EMPTY` before a deferred error, which comes next; success returns the ingredients |
| Validation.BuildChecks | pmql/builder.h:522-555 | build succeeds exactly when every reachable leaf is in range and nothing dangles; a dangling report names the smallest unreachable node; a leaf error names a reachable leaf out of range |
| Validation.BuildGood | pmql/builder.h:522-555 | on a builder made by the public operations, build succeeds exactly when nothing dangles, and returns a valid expression |
| Validation.BuiltIsTransparent | pmql/builder.h:522-555 | whatever such a builder builds evaluates the same with caching on and off |
| Validation.ForwardRef | pmql/builder.h:399-409 | no error exactly when every ref is below the current position; otherwise a `BUILDER_BAD_ARGUMENT` naming a forward ref |
| Validation.NodeError | pmql/builder.h:376-410 | the constructor's per-node check fails exactly for a `Const` out of range or a forward ref |
| Validation.FromIngredientsChecks | pmql/builder.h:363-421 | the constructor defers nothing exactly when refs point backwards and constants are in range, and then counts the variables |
| Validation.CanonicalPrefix | pmql/builder.h:442-452 | in a canonical list each variable reads the slot numbered by the variables before it |
| Validation.SwappedAccepted | pmql/builder.h:363-421 | `[Var(1,"a"), Var(0,"b"), a + b]` passes the constructor and build although its variables are not canonical |
| Validation.SwappedReadsOtherName | pmql/builder.h:363-421 | in that expression the name `a` finds slot 0, but the operation named `a` reads slot 1: with a=1, b=10 it evaluates to 10 |
| Validation.FromIngredientsFixedChecks | pmql/builder.h:363-421 | the constructor with the index check defers nothing exactly when refs point backwards, constants are in range and variables are canonical |
| Validation.SwappedRejectedFixed | pmql/builder.h:363-421 | the corrected constructor defers `BUILDER_BAD_SUBSTITUTION` on the first variable of the swapped list |
| Validation.BuildFromIngredientsFixed | pmql/builder.h:522-555 | what the corrected constructor accepts and build returns is a valid expression |

## Left out

- Streaming, logging and formatting (`operator<<`, `log`, `format`) and the diagnostic payload of errors. An error is its kind plus the ids that identify it.
- The numeric hash arithmetic. Deduplication is keyed by the structural content each hash covers (`Nodes.KeyOf`). The source keys its map by the hash value alone, so a real hash collision would merge two distinct nodes; the model cannot show that.
- Concrete C++ arithmetic: overflow, division by zero, bool/int promotions. `apply` is a parameter constrained only by the null overloads.
- The null–null and unary `-null` overloads of `pmql/null.h`. Their template parameter cannot be deduced, so their results are not asserted.
- The parser, `pmql/serial.h` (empty stubs), `pmql/error.h`, `pmql/result.h` and `pmql/unwrap.h`.
- The earlier top-level prototypes (`expression.h`, `op.h`, `context.h`, `store.h`, `ops.h` and the rest) and the bench.
- Sharing an expression between threads: concurrency is out of scope.
- Out-of-range handle indexes and substitution indexes are undefined behaviour in the source. The model's getters and store accessors answer `EXPR_NOT_READY` there.
- Extension functions are modelled as left-to-right consumers of their arguments (a `decide` step after each fetch and a `finish` step). That shape covers `avail`; other C++ callables are not modelled.
- Words.IntShiftOne: a shift of 32 or more on a 32-bit `int` is undefined behaviour. It is modelled as the x86 behaviour of shifting by the count modulo 32.
- Cache.Write: validity is set through the corrected bitmap `set`. The source's `d_valid[d_op] = true` goes through `set` at pmql/bitmap.h:307, so the model agrees with the source only on lists of at most 31 operations (`Cache.WriteAsWrittenAgreesBelow31`, built on `Words.AsWrittenAgreesBelow31`); `Cache.WriteAsWritten` models the write as written.
- Cache.Fresh: the masks are built through the corrected bitmap `set` and `~`, so they agree with the source only on lists of at most 31 operations. That agreement follows from `Words.AsWrittenAgreesBelow31` and `Words.NotAsWrittenAgreesUpToHalfWord`, which make the as-written bitmap operations the corrected ones; no lemma states it for the composed masks. `Cache.FreshAsWritten` models the short-circuit of `relations` but not this bitmap defect.
- Sessions.CacheIsTransparent: holds for the corrected bitmap, as do `Sessions.SessionIsReplay`, `Validation.BuiltIsTransparent` and `Expressions.EvalCorrect`, which rest on the same corrected write. For the source they hold only on lists of at most 31 operations, and the builder can make longer ones; `Sessions.WideListAsWritten` shows a 34-operation list where caching changes the answer. A complete as-written cached session is not modelled.
- Sessions.SessionIsReplay: rests on the corrected write of `Cache.Write`, so for the source it holds only on lists of at most 31 operations (see `Sessions.CacheIsTransparent`).
- Validation.BuiltIsTransparent: rests on the corrected write of `Cache.Write`, so for the source it holds only on lists of at most 31 operations (see `Sessions.CacheIsTransparent`).
- Ops.Window: each Dafny `char` stands for one C++ `char`, that is one byte. Multibyte text is not decoded: the source's `substr` and `find` count bytes, so on non-ASCII input the model's window and the source's differ unless each character of the model string is read as one byte of the encoded text.
- Ops.Identify: inherits the byte reading of `Ops.Window`; its results are positions in bytes.
- Bitmaps.And: the bits of `b` past the other map are stated to be kept. The source combines them with the padding bits of the other map's last word up to the end of that word (`Words.CombineShorterUsesPadding`), so the two agree when the sizes are equal, as at pmql/results.h:226, or the other map ends on a word boundary. `Words.AndAssignRefines` states the source's behaviour for any sizes.
- Bitmaps.Or: the same as `Bitmaps.And`, for `|=` (`Words.OrAssignRefines`).
- Contexts.Assign: assigning a slot and invalidating its variable are one operation in the model. No shown file performs that composition.
- Validation.VisitCorrect: only characterises `visit` on lists whose refs point backwards. The `BUILDER_BAD_ARGUMENT` and `BUILDER_REF_TO_UNKNOWN` outcomes of `visit` are modelled but not stated in a lemma, because both builder paths make refs backward before `build()` can visit.
- Validation.VisitCorrect: the leaf error it reports is stated to be some reachable out-of-range leaf, not the first one in visit order.
- Validation.FromIngredientsChecks: states when the constructor defers an error, but not which node the deferred error names.
- Validation.BuildChecks: requires refs to point backwards when nothing is deferred. This holds for every builder either path makes.
- The raw-ingredients constructor leaves the key map empty, so appending to such a builder does not deduplicate against its existing nodes. This is modelled (`Validation.FromIngredientsWith`) and no lemma relies on deduplication for it.

## Findings

| source | as written | input that shows it | evidently intended | confidence | as-written member | corrected member |
|---|---|---|---|---|---|---|
| pmql/results.h:147 | `bitmap[id] = bitmap[id] \|\| relations(...)` stops exploring the remaining refs once one ref marked the node | `negate(a) + bit_not(a)`: `bit_not(a)` stays unmarked, so after a=1 then a=2 the cached result is −4 instead of −5 | every node depending on the variable is marked (the doc comment at results.h:118) | not executed; high | Sessions.StaleCacheAsWritten | Sessions.CacheIsTransparent |
| pmql/ops.h:143 | `pos = start + sign.size()` with `start` measured in the trimmed window | `identify("a + b", pos = 1)` leaves `pos` at 1 | `pos` past the end of the sign in the source (ops.h:121) | not executed; high | Ops.IdentifyPositionIsWindowRelative | Ops.IdentifyFixedEndsPastSign |
| pmql/ops.h:140-146 | signs are tried in catalogue order and the first one found wins | `identify(">=", 0)` reports `greater` | the longest sign at the position, `greater_equal` | not executed; medium | Ops.IdentifyGreaterEqualAsGreater | Ops.IdentifyFixedIsLongest |
| pmql/store.h:167-173 | `Single::operator=` assigns the value but keeps `d_null` | a default `Single<int>` assigned 5 still converts to false and is visited as null | the store holds the assigned value, as `Variant::operator=` does | not executed; medium | Stores.SingleAssignLosesValue | Stores.SingleAssignFixedRefinesVariant |
| pmql/bitmap.h:307 | `Elem(1 << offset)` shifts a 32-bit `int` | `set(31)` on 64 clear bits also sets bit 32; `set(40)` sets bit 8. In a cached expression of 34 operations (a constant, 31 chained negates, `bit_not` of the constant, the sum of operations 31 and 32), storing operation 31 marks operation 32 up to date while it still holds `EXPR_NOT_READY`, so the sum fails instead of answering −3 (`Sessions.WideListAsWritten`) | the single bit `offset` of a 64-bit word | not executed; high | Words.AsWrittenTouchesOtherBits | Words.SetRefines |
| pmql/bitmap.h:341 | the last-word mask is `(FILL_TRUE << t) >> t`, keeping the low `64 - t` bits | `~Bitmap(40, false)` has bit 30 clear | a mask keeping the low `t` bits, so `~` flips every bit below the size | not executed; high | Words.NotAsWrittenClearsBitsBelowSize | Words.NotRefines |
| pmql/builder.h:363-421 | the raw-ingredients constructor counts `Var` nodes but does not check that the k-th one has index k | `[Var(1,"a"), Var(0,"b"), a + b]` builds; the variable named `a` then reads the slot the context binds to `b` | variable indices in declaration order, as `var()` hands them out | not executed; medium | Validation.SwappedReadsOtherName | Validation.FromIngredientsFixedChecks |
