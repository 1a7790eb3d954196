/** Option and Result: the model's stand-ins for Python's `None` and for raised exceptions. */
module Wrappers {

  /** `None` models a missing value: Python's `None`, or the bounding box of no points. */
  datatype Option<+T> = None | Some(value: T)

  /** `Err` models an exception the source raises; `Ok` a normal return. */
  datatype Result<+T, +E> = Ok(value: T) | Err(error: E)
}
