/** Optional values and the Python exceptions the modelled code can raise. */
module Outcomes {

  /** Python's `None` or a value. */
  datatype Option<+T> = None | Some(value: T)

  /** The exceptions that can escape the modelled functions. */
  datatype Exception =
    | IndexError          // `parts[k]` past the end of a `split` result
    | ValueError          // `int(text)` on text that is not a decimal integer
    | AttributeError      // a method called on `None`
    | UnicodeDecodeError  // bytes that are not well-formed UTF-8

  /** A computation that either returns a value or raises. Failure-compatible, so `:-`
      propagates a raised exception the way Python does. */
  datatype Outcome<+T> = Ok(value: T) | Raised(exception: Exception) {

    predicate IsFailure() {
      Raised?
    }

    function PropagateFailure<U>(): Outcome<U>
      requires Raised?
    {
      Raised(exception)
    }

    function Extract(): T
      requires Ok?
    {
      value
    }
  }
}
