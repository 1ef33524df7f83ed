/** Small shared vocabulary: an optional value and an unsigned byte. */
module Common {

  /** Python's `None` or a present value. */
  datatype Option<+T> = None | Some(value: T)

  /** One unsigned byte, as held by a Python `bytes` object. */
  newtype byte = x: int | 0 <= x < 256

  function Min(x: int, y: int): int { if x <= y then x else y }

  function Max(x: int, y: int): int { if x <= y then y else x }
}
