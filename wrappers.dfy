/** Option and Result values used where the source returns None, NaN, or raises. */
module Wrappers {

  datatype Option<+T> = None | Some(value: T)

  /** Why a Python call would stop: an uncaught exception or a `sys.exit`. */
  datatype Error =
    | IndexError(what: string)
    | KeyError(what: string)
    | ValueError(what: string)
    | AttributeError(what: string)
    | TypeError(what: string)
    | ZeroDivisionError(what: string)
    | AssertionError(what: string)
    | Exit(code: int, why: string)
    | RecursionLimit

  datatype Result<+T> = Ok(value: T) | Err(error: Error)
}
