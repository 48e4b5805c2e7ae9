/** Go's fixed-width integer and the two result shapes the filter's operations return. */
module Primitives {

  /** An unsigned 64-bit integer (Go's `uint64`). */
  type u64 = x: int | 0 <= x < 0x1_0000_0000_0000_0000

  /** An unsigned 8-bit integer (Go's `byte`). */
  type byte = x: int | 0 <= x < 256

  /** A Go `error` result: `None` stands for `nil`. */
  datatype Option<+T> = None | Some(value: T)

  /** A Go `(value, error)` pair where exactly one half is meaningful. */
  datatype Result<+T, +E> = Success(value: T) | Failure(error: E)
}
