/** Results shared by the other modules. */
module Wrappers {
  datatype Option<+T> = None | Some(value: T)

  // A Go call either returns normally, returns an error to its caller, or panics.
  datatype Outcome<+T> = Ok(value: T) | Failed(failure: Failure)

  datatype Failure =
    | UserError(what: string)
    | NilDereference
    | IndexOutOfRange
    | UnhashableKey
    | WrongType
    | BackendError
}
