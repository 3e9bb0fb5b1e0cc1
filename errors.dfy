/**
 * The exceptions the engine throws, as values: a call that would throw
 * returns `Err` with the kind of exception instead.
 */
module Errors {

  datatype Error =
    | InvalidArgument  // std::invalid_argument
    | OutOfRange       // std::out_of_range
    | HavocHung        // std::exception raised when too many mutations fail in a row

  datatype Result<+T> = Ok(value: T) | Err(error: Error)
}
