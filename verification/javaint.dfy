/** Java's 32-bit `int`: the range of its values and the two's-complement
    wrap-around of its arithmetic. */
module JavaInts {

  const MinInt: int := -0x8000_0000
  const MaxInt: int := 0x7fff_ffff
  const Modulus: int := 0x1_0000_0000

  type Int32 = x: int | MinInt <= x <= MaxInt

  /** The `int` that an unbounded result wraps to. */
  function Wrap(x: int): (r: Int32)
    ensures (r - x) % Modulus == 0
    ensures MinInt <= x <= MaxInt ==> r == x
  {
    (x - MinInt) % Modulus + MinInt
  }

  /** Java's unary minus on `int`: the negation of `MinInt` is `MinInt`. */
  function Negate(x: Int32): (r: Int32)
    ensures x != MinInt ==> r == -x
    ensures x == MinInt ==> r == MinInt
  {
    Wrap(-(x as int))
  }
}
