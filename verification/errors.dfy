/**
 * The error sentinels of the store (errors.go) and Go's `error` result.
 */
module Errors {

  /** The four sentinels callers may branch on, plus any error a nested
      collection returns, which the store passes through unchanged. */
  datatype Err =
    | Closed      // the collection is not open
    | InvalidKey  // the empty key was given to a write
    | NotFound    // the key has no document
    | Released    // the iterator has been released
    | Foreign(code: nat)

  /** Go's `error` return: `Pass` is nil. */
  datatype Outcome = Pass | Fail(error: Err)
}
