/** Option and Result values used for Python's "None or value" and "(ok, value | message)" returns. */
module Wrappers {

  datatype Option<+T> = None | Some(value: T)

  /** A computation that either produced a value or failed with a message. */
  datatype Result<+T> = Ok(value: T) | Err(error: string)
}
