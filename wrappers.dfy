/**
 * Option and Result. `None` stands for Python's `None`, or for an index that is out of range
 * where the operation documents it; `Failure` stands for a raised exception.
 */
module Wrappers {

  datatype Option<+T> = None | Some(value: T)

  datatype Result<+T, +E> = Success(value: T) | Failure(error: E)
}
