/** Results of the modelled Python code: a value, or the exception it raises. */
module Outcomes {

  /** The Python exceptions the core can raise. */
  datatype PyError =
    | ValueError      // range() called with a zero step
    | IndexError      // [-1] taken of an empty list
    | KeyError        // dict lookup of an absent hour
    | AttributeError  // unknown override mode

  datatype Result<+T> = Success(value: T) | Failure(error: PyError)

  /** Puts `prefix` in front of the values of `r`; an error passes through unchanged. */
  function Prepend<T>(prefix: seq<T>, r: Result<seq<T>>): Result<seq<T>>
  {
    match r
    case Success(rest) => Success(prefix + rest)
    case Failure(e) => Failure(e)
  }
}
