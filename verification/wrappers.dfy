/** Wrappers used by the shopping-list model: an optional value
    (a model slot that may not exist yet) and a result that is either a value or
    the error the JavaScript code would have thrown. */
module Wrappers {

  datatype Option<+T> = None | Some(value: T)

  datatype Result<+R, +E> = Success(value: R) | Failure(error: E)
}
