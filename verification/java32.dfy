/**
  The two pieces of the Java platform the comparators rely on: the 32-bit
  `int` type with its wrapping multiplication, and `Integer.compare`.
 */
module Java32 {

  const MIN_VALUE: int := -0x8000_0000
  const MAX_VALUE: int := 0x7fff_ffff

  /** Width of the `int` type: arithmetic wraps modulo this. */
  const MODULUS: int := 0x1_0000_0000

  /** Java's `int`: a 32-bit two's-complement integer. */
  newtype Int32 = x: int | MIN_VALUE <= x <= MAX_VALUE

  /** Narrows a mathematical integer to `int` the way Java arithmetic does:
      the result is the unique `int` congruent to `x` modulo 2^32. */
  function Wrap(x: int): (r: Int32)
    ensures MIN_VALUE <= x <= MAX_VALUE ==> r as int == x
    ensures (x - r as int) % MODULUS == 0
  {
    var shifted := x - MIN_VALUE;
    var q := shifted / MODULUS;
    assert shifted == q * MODULUS + shifted % MODULUS;
    (shifted % MODULUS + MIN_VALUE) as Int32
  }

  /** The `*` operator on two `int` operands. */
  function Mul(a: Int32, b: Int32): (r: Int32)
    ensures MIN_VALUE <= a as int * b as int <= MAX_VALUE ==> r as int == a as int * b as int
    ensures (a as int * b as int - r as int) % MODULUS == 0
  {
    Wrap(a as int * b as int)
  }

  /** `Integer.compare(x, y)`: -1, 0 or 1 according as `x` is below, equal
      to or above `y`. */
  function Compare(x: Int32, y: Int32): (r: Int32)
    ensures -1 <= r <= 1
    ensures r < 0 <==> x < y
    ensures r == 0 <==> x == y
    ensures r > 0 <==> x > y
  {
    if x < y then -1 else if x == y then 0 else 1
  }

  /** Negating `Integer.MIN_VALUE` wraps back to itself: a comparison
      multiplied by -1 is reversed only because `Compare` never returns it. */
  lemma NegatingMinValueWraps()
    ensures Mul(-1, MIN_VALUE as Int32) as int == MIN_VALUE
  {
  }
}
