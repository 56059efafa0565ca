/**
 * Java's 32-bit `int`: its range and the two's-complement wrap-around that
 * Java's `+` and `+=` perform silently on overflow.
 */
module JavaInt {

  const MinInt: int := -0x8000_0000
  const MaxInt: int := 0x7fff_ffff
  const Modulus: int := 0x1_0000_0000

  /** The values a Java `int` can hold. */
  type Int32 = x: int | MinInt <= x <= MaxInt

  predicate InInt32(x: int) {
    MinInt <= x <= MaxInt
  }

  /** The Java `int` that an exact integer result wraps to. */
  function Wrap32(x: int): (r: Int32)
    ensures (r - x) % Modulus == 0
    ensures InInt32(x) ==> r == x
  {
    var m := (x - MinInt) % Modulus;
    m + MinInt
  }

  /**
   * Wrapping after every addition gives the same result as wrapping once at
   * the end, which is why a Java accumulation loop can be specified by the
   * exact sum wrapped once.
   */
  lemma WrapAdd(x: int, y: int)
    ensures Wrap32(Wrap32(x) + y) == Wrap32(x + y)
  {
    var a := Wrap32(x);
    assert (a - x) % Modulus == 0;
    WrapCongruent(a + y, x + y);
  }

  /** Two integers that differ by a multiple of 2^32 wrap to the same int. */
  lemma WrapCongruent(x: int, y: int)
    requires (x - y) % Modulus == 0
    ensures Wrap32(x) == Wrap32(y)
  {
    var k := (x - y) / Modulus;
    assert x - MinInt == (y - MinInt) + k * Modulus;
    ModShift(y - MinInt, k);
  }

  lemma ModShift(a: int, k: int)
    ensures (a + k * Modulus) % Modulus == a % Modulus
  {
  }
}
