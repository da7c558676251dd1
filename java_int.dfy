/**
 * The two pieces of Java `int` arithmetic the game view relies on: the
 * 32-bit range with its wrap-around on `++`, and division that truncates
 * toward zero.
 */
module JavaInt {

  const MIN_INT: int := -0x8000_0000
  const MAX_INT: int := 0x7fff_ffff

  /** A Java `int`. */
  newtype int32 = x: int | -0x8000_0000 <= x < 0x8000_0000

  predicate InInt32(x: int) {
    MIN_INT <= x <= MAX_INT
  }

  /** Java's `x++`: one more, except that the largest value wraps to the smallest. */
  function Inc(x: int32): (r: int32)
    ensures x as int < MAX_INT ==> r as int == x as int + 1
    ensures x as int == MAX_INT ==> r as int == MIN_INT
  {
    ((x as int + 1 - MIN_INT) % 0x1_0000_0000 + MIN_INT) as int32
  }

  /**
   * Java's `a / b` for a positive divisor. The quotient is truncated toward
   * zero, where Dafny's `/` is Euclidean and rounds a negative `a` down.
   */
  function Div(a: int, b: int): (q: int)
    requires b > 0
    ensures a >= 0 ==> 0 <= q && q * b <= a < q * b + b
    ensures a < 0 ==> q <= 0 && q * b - b < a <= q * b
  {
    if a >= 0 then
      DivBounds(a, b);
      a / b
    else
      DivBounds(-a, b);
      -((-a) / b)
  }

  /** Division of a natural number rounds down, whichever the sign it is later given. */
  lemma DivBounds(n: int, b: int)
    requires n >= 0 && b > 0
    ensures 0 <= n / b && (n / b) * b <= n < (n / b) * b + b
    ensures (-(n / b)) * b == -((n / b) * b)
  {
    var q, r := n / b, n % b;
    assert n == q * b + r && 0 <= r < b;
  }
}
