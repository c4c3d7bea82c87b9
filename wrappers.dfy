/** Failure-compatible Option and Result types, usable with `:-`. */
module Wrappers {

  datatype Option<+T> = None | Some(value: T)

  datatype Result<+T, +E> = Ok(value: T) | Err(error: E) {
    predicate IsFailure() { Err? }

    function PropagateFailure<U>(): Result<U, E>
      requires Err?
    {
      Err(error)
    }

    function Extract(): T
      requires Ok?
    {
      value
    }
  }
}

/** The failures the store reports to its callers. */
module Failures {

  datatype Error =
    | NotFound          // IndexError or KeyError from a lookup
    | CorruptStore      // a table or heap that does not decode
    | NoMatch           // "attribute not defined"
    | AmbiguousQuery    // "duplicate definitions"
    | NoSuchAttribute   // an attribute lookup that is not a traversal at all
}

/** Success or failure of an operation that returns nothing. */
module Outcomes {

  datatype Outcome<+E> = Pass | Fail(error: E)
}
