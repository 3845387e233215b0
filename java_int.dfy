/** Java's integer division and remainder on `int`.
    Java rounds the quotient toward zero, so the remainder takes the sign of the
    dividend: `(0 - 1) % 6 == -1` in Java, whereas Dafny's Euclidean `%` gives 5.
    The quiz's Prev handler depends on the Java behaviour. Overflow of 32-bit
    `int` is not modelled: the quiz only applies these to small indices. */
module JavaInt {

  function Abs(x: int): (r: nat) {
    if x < 0 then -x else x
  }

  /** Java's `a / b`: the quotient rounded toward zero. */
  function JavaDiv(a: int, b: int): (q: int)
    requires b != 0
  {
    if a >= 0 then a / b else -((-a) / b)
  }

  /** Java's `a % b`: what is left after JavaDiv; zero or of the dividend's sign,
      and smaller than the divisor in magnitude. */
  function JavaRem(a: int, b: int): (r: int)
    requires b != 0
    ensures JavaDiv(a, b) * b + r == a
    ensures a >= 0 ==> 0 <= r < Abs(b)
    ensures a < 0 ==> r <= 0 && -r < Abs(b)
  {
    if a >= 0 then a % b else -((-a) % b)
  }

  /** A dividend smaller than a positive divisor in magnitude is its own remainder,
      and the divisor leaves none: so `(i + 1) % n` and `(i - 1) % n` on an index
      `0 <= i < n` step to the neighbour, except that `n - 1` steps to 0 and 0
      steps to -1, not to `n - 1` as with a Euclidean remainder. */
  lemma JavaRemNeighbour(a: int, b: int)
    requires b > 0 && -b < a <= b
    ensures JavaRem(a, b) == if a == b then 0 else a
  {
    if a == b {
      assert JavaDiv(a, b) == 1;
    } else if a >= 0 {
      assert JavaDiv(a, b) == 0;
    } else {
      assert JavaDiv(a, b) == 0;
    }
  }
}
