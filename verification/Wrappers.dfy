/** Result, option and failure types shared by the models. */
module Wrappers {
  datatype Option<+T> = None | Some(value: T)

  datatype Result<+T, +E> = Ok(value: T) | Err(error: E)

  /** Whether an operation reports an error of its backend, and if so whether it took effect. */
  datatype Fault = NoFault | FailBefore | FailAfter
}
