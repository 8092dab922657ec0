/** Real arithmetic shared by the models: doubles are taken as exact reals, clocks as whole nanoseconds. */
module Numbers {

  const NANOSECONDS := 1000000000.0

  function Abs(x: real): real {
    if x < 0.0 then -x else x
  }

  /** A conversion from floating point to an integer type cuts toward zero. */
  function Truncated(x: real): int {
    if x >= 0.0 then x.Floor else -(-x).Floor
  }

  /** A span between two clock readings, in seconds. */
  function Seconds(span: int): (s: real)
    ensures s * 1000000000.0 == span as real
  {
    span as real / NANOSECONDS
  }

  /** Multiplication under a name, so that a proof can speak of a product without expanding it. */
  function Times(a: real, b: real): real { a * b }
}
