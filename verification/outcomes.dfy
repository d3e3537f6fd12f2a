/** Failure-carrying results shared by the serializers and the scanner model. */
module Outcomes {

  datatype Option<+T> = None | Some(value: T)

  /** The exceptions the C++ code throws, folded into one error type:
      `paraglob::underflow_error`, `paraglob::overflow_error`, and the
      `std::invalid_argument` / `std::out_of_range` of `std::stoi` and of the
      text deserializer. */
  datatype Error =
    | UnderflowError
    | OverflowError
    | InvalidArgument
    | OutOfRange

  datatype Result<+T> = Ok(value: T) | Err(error: Error)
}
