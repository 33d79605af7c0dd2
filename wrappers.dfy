/** The `Option` and `Result` datatypes shared by the other modules. A Go `error`
    return is modelled as an `Option<string>`: `None` is `nil`, `Some(m)` is an
    error whose `Error()` text is `m`. */
module Wrappers {

  datatype Option<+T> = None | Some(value: T)

  datatype Result<+R, +E> = Success(value: R) | Failure(error: E)
}
