/** Types shared by the three data structures: Rust's `i32` and `Option<T>`. */
module Primitives {

  /** Rust's `i32`. Values of this type are only ever compared, never
      combined arithmetically, so no wrap-around needs modelling. */
  newtype I32 = x: int | -0x8000_0000 <= x < 0x8000_0000

  /** Rust's `Option<T>`. */
  datatype Option<T> = None | Some(value: T)
}
