/** Option and Result: the absent value (Java `null`, an empty `Optional`) and
    the thrown exception of the Java code, as values. */
module Wrappers {

  datatype Option<+T> = None | Some(value: T)

  /** `Err` carries the message of the exception the Java code would throw. */
  datatype Result<+T> = Ok(value: T) | Err(error: string)
}
