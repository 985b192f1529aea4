/** Error kinds of the expression engine and the success-or-error wrappers
    every fallible operation returns.  Only the kind and the structured
    details that the engine's logic inspects are kept; diagnostic text,
    file/line stamping and formatting are not modelled. */
module Errors {

  datatype Error =
    /** A node failed to obtain one of its arguments; `arg` is the node id
        (or pool slot, for constants and variables) that failed and
        `cause` is the wrapped error of that argument. */
    | OpBadArgument(arg: nat, cause: Error)
    /** The operand types do not support the requested operator. */
    | OpIncompatibleTypes
    /** A ternary condition could not be converted to bool. */
    | OpTernaryBadCondition
    /** `build()` was called on a builder with no operations. */
    | BuilderEmpty
    /** An argument id does not name an existing operation. */
    | BuilderRefToUnknown(ref: nat)
    /** Operation `id` is not reachable from the root. */
    | BuilderDangling(id: nat)
    /** Operation `id` refers to `ref`, which is not strictly before it. */
    | BuilderBadArgument(id: nat, ref: nat)
    /** Constant or variable operation `id` refers to a missing pool slot `sub`. */
    | BuilderBadSubstitution(id: nat, sub: nat)
    /** No variable with this name exists in the context. */
    | ContextBadVariable(name: string)
    /** The result of an operation has not been computed (or is out of date). */
    | ExprNotReady
    /** The variable has no substituted value. */
    | ExprBadSubst(name: string)
    /** No extension function with this name is in the pool. */
    | ExprBadFunction(name: string)
    /** No extension function with this id is in the pool. */
    | ExprBadFunctionId(id: nat)

  datatype Result<+T> = Ok(value: T) | Err(error: Error)

  datatype Option<+T> = None | Some(value: T)
}
