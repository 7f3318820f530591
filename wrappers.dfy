/** Option and Result values shared by the modules of this model. */
module Wrappers {

  datatype Option<+T> = None | Some(value: T)

  /** The outcome of an operation that the Go code ends with a panic on bad input. */
  datatype Result<+T> = Ok(value: T) | Panic(reason: string)
}
