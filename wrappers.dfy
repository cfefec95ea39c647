/** Failure-carrying return types. The source signals errors by throwing
    `std::runtime_error`; the model returns `Err` with the same message. */
module Wrappers {

  datatype Option<T> = None | Some(value: T)

  datatype Result<T> = Ok(value: T) | Err(msg: string)
}
