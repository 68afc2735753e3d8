/** The exception paths of the simulator (THROW_ARGOSEXCEPTION and friends)
    become values: an operation that may throw returns a Result, and a lookup
    that may come back with NULL or end() returns an Option. */
module Errors {

  datatype Option<T> = None | Some(value: T)

  /** `Fail` carries the exception's message. */
  datatype Result<T> = Ok(value: T) | Fail(message: string)

  /** Outcome of an operation that only changes state, or throws. */
  datatype Status = Done | Thrown(message: string)
}
