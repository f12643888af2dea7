/** Option and Result values, and the Python exceptions the core raises. */
module Wrappers {

  /** A Python value that may be `None`. */
  datatype Option<+T> = None | Some(value: T)

  /** The exceptions raised by the modelled code. */
  datatype Error =
    | ValueError(message: string)
    | KeyError
    | TypeError
    | AttributeError
    /** raised by `validate.direction` for a direction that cannot order a pair */
    | InvalidDirection

  /** The outcome of an operation that either returns or raises. */
  datatype Result<+T> = Ok(value: T) | Err(error: Error)
}
