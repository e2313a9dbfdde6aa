/** Option and Result types used for the error paths of the model. */
module Wrappers {

  /** A value that may be missing. In the geometry helpers `None` stands for the
      ZeroDivisionError that Python raises when a segment has zero length. */
  datatype Option<+T> = None | Some(value: T)

  /** The `(value, error)` pairs the route part returns from its queries. */
  datatype Result<+T> = Ok(value: T) | Err(error: string)
}
