/**
 * Java's 32-bit `int`: its value range, the two's-complement wrap-around of
 * `+` and `*`, and the remainder operator `%`, which truncates toward zero.
 */
module JavaInt {

  const INT_MIN: int := -0x8000_0000
  const INT_MAX: int := 0x7FFF_FFFF
  const MODULUS: int := 0x1_0000_0000

  /** A value a Java `int` can hold. */
  type Int32 = x: int | INT_MIN <= x <= INT_MAX

  /** The `int` that Java's arithmetic yields for the mathematical value `x`. */
  function Wrap(x: int): (r: Int32)
    ensures (r - x) % MODULUS == 0
  {
    (x - INT_MIN) % MODULUS + INT_MIN
  }

  /** Java's `a % b`: the sign of the result follows the dividend. */
  function Rem(a: int, b: int): int
    requires b > 0
  {
    if a >= 0 then a % b else -((-a) % b)
  }

  /** Wrapping leaves a representable value alone. */
  lemma WrapInRange(x: int)
    ensures INT_MIN <= x <= INT_MAX ==> Wrap(x) == x
  {
  }

  /** Two values that differ by a multiple of 2^32 wrap to the same `int`. */
  lemma WrapCongruent(x: int, y: int)
    requires (x - y) % MODULUS == 0
    ensures Wrap(x) == Wrap(y)
  {
    var k := (x - y) / MODULUS;
    assert x - INT_MIN == (y - INT_MIN) + k * MODULUS;
    ModMultiple(y - INT_MIN, k);
  }

  lemma ModMultiple(a: int, k: int)
    ensures (a + k * MODULUS) % MODULUS == a % MODULUS
  {
    var q, r := a / MODULUS, a % MODULUS;
    assert a + k * MODULUS == (q + k) * MODULUS + r;
  }

  /**
   * One step `31 * acc + c` of a Java hash accumulation: wrapping the
   * accumulator first gives the same `int` as wrapping only at the end.
   */
  lemma {:induction false} WrapMulAdd(acc: int, factor: int, c: int)
    ensures Wrap(factor * Wrap(acc) + c) == Wrap(factor * acc + c)
  {
    var w := Wrap(acc);
    var k := (w - acc) / MODULUS;
    assert w == acc + k * MODULUS;
    assert factor * w + c == factor * acc + c + (factor * k) * MODULUS;
    ModMultiple(factor * acc + c, factor * k);
    WrapCongruent(factor * w + c, factor * acc + c);
  }

  /** On a non-negative dividend Java's `%` is the mathematical remainder. */
  lemma RemNonNegative(a: int, b: int)
    requires b > 0
    ensures a >= 0 ==> Rem(a, b) == a % b
  {
  }
}
