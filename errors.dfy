/*
 * The crate's error enum and its `Result` alias. The `Display` strings are
 * not modelled. The conversion from `TryFromSliceError` is the
 * `TryFromSliceError` constructor itself.
 */
module Errors {

  datatype Error = InvalidKeyLen | BufferOutOfBounds | TryFromSliceError

  /** `core::result::Result<T, Error>`, usable with `:-` like Rust's `?`. */
  datatype Result<T> = Ok(value: T) | Err(error: Error) {

    predicate IsFailure()
    {
      Err?
    }

    function PropagateFailure<U>(): Result<U>
      requires Err?
    {
      Err(error)
    }

    function Extract(): T
      requires Ok?
    {
      value
    }
  }
}
