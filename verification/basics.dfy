/** Primitive types shared by every layer: Go's fixed-width integers, instants,
    optional values and Go's `(value, error)` return convention. */
module Basics {

  /** Largest value of Go's `uint64`. */
  const MaxU64: nat := 0xFFFF_FFFF_FFFF_FFFF

  /** Go's `uint64`: ids of tasks and users. */
  type u64 = x: int | 0 <= x <= 0xFFFF_FFFF_FFFF_FFFF

  /** Go's `int64`: the epoch-seconds deadline of a request body. */
  type i64 = x: int | -0x8000_0000_0000_0000 <= x <= 0x7FFF_FFFF_FFFF_FFFF

  /** An instant, counted in whole seconds since the Unix epoch. */
  type Time = int

  /** The zero `time.Time` (January 1 of year 1, UTC) in Unix seconds. */
  const ZeroTime: Time := -62135596800

  datatype Option<+T> = None | Some(value: T)

  /** Go's `(value, error)` pair: `err` is `None` exactly when the call succeeded,
      and `value` is whatever the callee returned alongside. */
  datatype Fallible<+T, +E> = Fallible(value: T, err: Option<E>) {
    predicate Failed() { err.Some? }
  }

  /** The verdict of decoding (and validating) a request body: the decoded value,
      or a rejection whose reason is not modelled. */
  datatype Body<+T> = Accepted(value: T) | Rejected
}
