/** Outcomes of the pipeline's operations: a value, or the Python exception the code raises. */
module Wrappers {

  /** The exceptions the modelled code can raise on its own inputs. */
  datatype PyError =
    | ZeroDivisionError  // `/` with a zero divisor
    | ValueError         // `range()` called with a zero step

  datatype Result<T> = Ok(value: T) | Err(error: PyError)
}
