/** Option and Result, the two failure-carrying shapes the Rust code uses. */
module Wrappers {

  /** Rust's `Option<T>`. */
  datatype Option<+T> = None | Some(value: T)

  /** Rust's `Result<T, E>`. */
  datatype Result<+T, +E> = Ok(value: T) | Err(error: E)
}

/** Raw bytes, as carried by HTTP header values, keys and password buffers. */
module Bytes {

  /** Rust's `u8`. */
  newtype byte = x: int | 0 <= x < 256
}
