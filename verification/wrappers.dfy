/** Optional values and error-or-value results, standing in for null pointers
    and thrown exceptions. */
module Wrappers {

  /** A value that may be absent (a null pointer in the C++ library). */
  datatype Option<+T> = None | Some(value: T)

  /** Either a value or an error message (a thrown `std::runtime_error`). */
  datatype Result<+T> = Success(value: T) | Failure(error: string)
}
