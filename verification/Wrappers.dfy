/** Values that may be absent, and Rust's integer division. */
module Wrappers {
  datatype Option<+T> = None | Some(value: T)

  /** Division by a positive divisor, towards zero. */
  function DivTrunc(a: int, b: int): int
    requires b > 0
  {
    if a >= 0 then a / b else -((-a) / b)
  }
}
