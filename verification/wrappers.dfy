/** Small value wrappers shared by the whole model. */
module Wrappers {

  /** A value that may be absent (JavaScript `undefined` / `null`). */
  datatype Option<+T> = None | Some(value: T)

  /** The settled result of a remote call: it resolved with a value or it rejected. */
  datatype Outcome<+T> = Ok(value: T) | Err
}
