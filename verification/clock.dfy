/**
 * The host's logical clock: 32-bit tracking timestamps, compared by a window predicate that
 * the host supplies.
 */
module Clock {

  /** Largest value of Rust's `u32`. */
  const U32_MAX: int := 0xFFFF_FFFF

  /** A `u32` timestamp. */
  type Timestamp = x: int | 0 <= x <= U32_MAX

  /**
   * The host's "is `timestamp` within (`last`, `current`)" comparison. It is not part of this
   * model, so every query receives it as a value and nothing is assumed about it.
   */
  type WithinFn = (Timestamp, Timestamp, Timestamp) -> bool

  /** `u32::wrapping_sub`: `a - b` modulo 2^32. */
  function WrappingSub(a: Timestamp, b: Timestamp): (r: Timestamp)
    ensures (r + b) % (U32_MAX + 1) == a
    ensures b <= a ==> r == a - b
  {
    if b <= a then a - b else a - b + U32_MAX + 1
  }
}
