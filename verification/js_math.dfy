/** The few JavaScript Math functions the pixel code calls, on reals. */
module JsMath {

  /** Math.round: the nearest integer, ties toward +infinity. */
  function Round(v: real): (r: int)
    ensures r as real - 0.5 <= v < r as real + 0.5
  {
    (v + 0.5).Floor
  }

  /** Math.min of two numbers. */
  function Min(a: real, b: real): real {
    if a <= b then a else b
  }

  /** Math.max of two numbers. */
  function Max(a: real, b: real): real {
    if a >= b then a else b
  }
}
