/** Failure-carrying datatypes shared by the whole model. */
module Wrappers {

  /** A value that may be absent: Go's `nil` slice, a failed decode. */
  datatype Option<+T> = None | Some(value: T)

  /** The result of a Go function returning only `error`: `Pass` is `nil`,
      `Fail(msg)` is an error whose `Error()` text is `msg`. */
  datatype Outcome<+E> = Pass | Fail(error: E)
}
