/** Option and Result values shared by the modules of this model: the Go
    source signals absence with a nil or a boolean and failure with an
    `error` return, both of which become these datatypes here. */
module Wrappers {

  datatype Option<+T> = None | Some(value: T)

  datatype Result<+T, +E> = Success(value: T) | Failure(error: E)
}
