/** Option and Result types shared by the whole model. A `Failure` carries the
    message of the JavaScript `Error` the source would throw. */
module Wrappers {

  datatype Option<+T> = None | Some(value: T)

  datatype Result<+T> = Success(value: T) | Failure(error: string)
}
