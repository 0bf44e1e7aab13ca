/** Option for values the source leaves `undefined`, Result for calls that throw. */
module Wrappers {

  datatype Option<+T> = None | Some(value: T)

  /** The value a JavaScript call returns, or the TypeError it throws. */
  datatype Result<+T> = Ok(value: T) | TypeError
}
