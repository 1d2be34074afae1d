/** Optional values and the results of operations that can raise, as the
    Python program uses them: a missing value is `None`, and an operation
    that raises one of the few exception kinds the core can hit returns
    `Err` with that kind instead of a value. */
module Wrappers {

  datatype Option<+T> = None | Some(value: T)

  /** The exception kinds the modelled code can raise. */
  datatype Exception = KeyError | ValueError | AttributeError

  datatype Result<+T> = Ok(value: T) | Err(error: Exception)
}
