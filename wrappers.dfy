/** Option and Result values, and the Python exceptions the core raises. */
module Wrappers {

  datatype Option<+T> = None | Some(value: T)

  /** The exception classes raised by the modelled code. */
  datatype Error =
    | ValueError
    | TypeError
    | NotImplementedError
    | AttributeError
    | KeyError
    | IndexError
    | NameError
      /** The ValueError raised by Boundaries, carrying every index whose maximum is below its minimum. */
    | InvertedBounds(indexes: seq<nat>)
      /** Not a Python exception: the move kept returning rejected neighbours until its draws ran out,
          where the source would keep drawing forever. */
    | DrawsExhausted

  datatype Result<+T> = Success(value: T) | Failure(error: Error)

  /** The result of a check that returns nothing on success. */
  datatype Outcome = Pass | Fail(error: Error)
}
