/** Outcomes of the parser: a value, no value, or the Python exception that ends the run. */
module Wrappers {

  datatype Option<+T> = None | Some(value: T)

  /** The exceptions the parsing code can raise on malformed input. */
  datatype Error =
    | IndexError   // a list index past the end (`feature_data[0]`, `features_data[-1]`, ...)
    | ValueError   // `int('')`, `int` of too many digits, or `datetime(...)` with an out-of-range field
    | OverflowError // `datetime(...)` with a field too large for a C `int`

  datatype Result<+T> = Ok(value: T) | Err(error: Error)
}
