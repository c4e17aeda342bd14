/** `Option` stands for a Python value that may be `None`; `Result` for an
    operation that may raise, carrying either its value or the error. */
module Wrappers {

  datatype Option<+T> = None | Some(value: T)

  datatype Result<+T, +E> = Success(value: T) | Failure(error: E)
}
