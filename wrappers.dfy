/** Small failure-carrying datatypes shared by the other modules. */
module Wrappers {

  /** A value that may be absent (std::string::npos, a missing map entry). */
  datatype Option<T> = None | Some(value: T)

  /** The outcome of an operation that the C++ code lets throw std::out_of_range
      (std::string::substr past the end, std::vector::at, std::unordered_map::at). */
  datatype Result<T> = Ok(value: T) | OutOfRange
}
