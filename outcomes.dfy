/** Failure outcomes of the two containers: the C++ exceptions they throw become values. */
module Outcomes {

  /** `std::out_of_range` (bad position, empty container) and `std::bad_array_new_length`
      (a capacity request that would not hold the current elements). */
  datatype Error = OutOfRange | BadArrayNewLength

  /** An operation that yields a value or throws. */
  datatype Result<T> = Ok(value: T) | Err(error: Error)

  /** An operation that yields nothing or throws. */
  datatype Outcome = Pass | Fail(error: Error)
}
