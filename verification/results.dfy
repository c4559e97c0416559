/** Error kinds of the content-upgrade engine and the failure-compatible
    wrappers every operation returns. A `Failure` carries the single error
    object the caller's callback would receive. */
module Results {

  /** Every error the engine can report to its caller. */
  datatype Error =
    /** The serialized parameters did not parse to an object or array. */
    | ParamsBroken(id: string)
    /** The library declares upgrade hooks but none are registered;
        `library` is "name major.minor". */
    | ScriptMissing(library: string)
    /** An opaque error produced by a collaborator: the library loader or an
        upgrade hook, forwarded verbatim. */
    | Collaborator(detail: string)
    /** The JavaScript would raise a TypeError here (a property read on
        `null`, or `split` called on something that is not a string). */
    | TypeError(detail: string)
    /** A version piece that is not of the form "major.minor". */
    | BadVersion(text: string)
    /** Sub-content nested deeper than the model's fuel allows. */
    | NestingTooDeep

  datatype Option<+T> = None | Some(value: T)

  datatype Result<+T> = Success(value: T) | Failure(error: Error) {

    predicate IsFailure() {
      Failure?
    }

    function PropagateFailure<U>(): Result<U>
      requires Failure?
    {
      Failure(error)
    }

    function Extract(): T
      requires Success?
    {
      value
    }
  }
}
