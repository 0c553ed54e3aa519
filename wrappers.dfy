/** Optional values and the outcome of JavaScript code that may throw. */
module Wrappers {

  /** A value that may be `undefined`. */
  datatype Option<+T> = None | Some(value: T)

  /** The value a JavaScript expression evaluates to, or the exception it throws. */
  datatype Result<+T> = Ok(value: T) | Thrown(reason: string)
}
