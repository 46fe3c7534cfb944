/** Failure-compatible wrappers shared by every module of the translator.

    The translator raises Python exceptions on malformed input and never
    catches them; here every such exception is an `Error` value carried by
    `Result`, so the first failure aborts the whole document exactly as the
    uncaught exception does. */
module Outcomes {

  datatype Option<+T> = None | Some(value: T)

  /** The ways translation of a document can fail. */
  datatype Error =
    | MissingKey(key: string)                 // a dict lookup on an absent key (KeyError)
    | MissingAttribute(tag: string, attr: string) // `tag['attr']` on a tag without it
    | MissingElement(tag: string)             // `find(tag)` returned None and was then used
    | MissingType                             // the type iterator ran out (StopIteration)
    | EmptyReturnType                         // `split()[-1]` of a blank return type (IndexError)

  datatype Result<+T> = Ok(value: T) | Err(error: Error) {

    predicate IsFailure() {
      Err?
    }

    function PropagateFailure<U>(): Result<U>
      requires Err?
    {
      Err(error)
    }

    function Extract(): T
      requires Ok?
    {
      value
    }
  }

  /** True iff `r` failed because some key was absent from a lookup table. */
  predicate IsMissingKey<T>(r: Result<T>) {
    r.Err? && r.error.MissingKey?
  }
}
