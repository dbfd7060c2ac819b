/** Failure-carrying result types shared by the modules of the model. */
module Wrappers {

  /** An optional value: JavaScript's `null`/`undefined` versus a present value. */
  datatype Option<+T> = None | Some(value: T)

  /** The outcome of an operation that may throw: the thrown `Error`'s message is kept as `error`. */
  datatype Result<+T> = Success(value: T) | Failure(error: string)
}
