/** The optional value and the success-or-error outcome the model's operations return. */
module Wrappers {

  datatype Option<T> = None | Some(value: T)

  /** A value, or the exception the original program would raise instead. */
  datatype Result<T> = Success(value: T) | Failure(error: string)
}
