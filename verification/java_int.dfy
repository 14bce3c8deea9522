/**
 * Java's 32-bit `int` arithmetic, written out over Dafny's unbounded integers:
 * two's-complement wrap-around for `+` and `-`, the arithmetic shift `>>`
 * (whose distance is masked to its low five bits) and `Math.abs`, which
 * returns `Integer.MIN_VALUE` unchanged.
 */
module JavaInt {

  const MIN_VALUE: int := -0x8000_0000
  const MAX_VALUE: int := 0x7fff_ffff

  /** A value of Java type `int`. */
  type int32 = x: int | -0x8000_0000 <= x < 0x8000_0000

  /** Two's-complement reduction of an exact result to 32 bits. */
  function Wrap(v: int): (r: int32)
    ensures MIN_VALUE <= v <= MAX_VALUE ==> r == v
    ensures (r - v) % 0x1_0000_0000 == 0
  {
    (v + 0x8000_0000) % 0x1_0000_0000 - 0x8000_0000
  }

  /** Java `a + b` on ints. */
  function Add(a: int32, b: int32): int32 {
    Wrap(a + b)
  }

  /** Java `a - b` on ints. */
  function Sub(a: int32, b: int32): int32 {
    Wrap(a - b)
  }

  /** Java `Math.abs(a)`: the negation of `Integer.MIN_VALUE` overflows back to itself. */
  function Abs(a: int32): (r: int32)
    ensures a != MIN_VALUE ==> r >= 0 && (r == a || r == -a)
    ensures a == MIN_VALUE ==> r == MIN_VALUE
  {
    if a == MIN_VALUE then a else if a < 0 then -a else a
  }

  function Pow2(n: nat): (r: nat)
    ensures r >= 1
  {
    if n == 0 then 1 else 2 * Pow2(n - 1)
  }

  lemma MulLe(x: int, y: int, p: int)
    requires x <= y && p >= 0
    ensures x * p <= y * p
  {
    assert (y - x) * p >= 0;
  }

  /** Floor division by a positive divisor never moves a value away from zero. */
  lemma DivBounds(a: int, p: int)
    requires p >= 1
    ensures 0 <= a ==> 0 <= a / p <= a
    ensures a < 0 ==> a <= a / p < 0
  {
    var q, r := a / p, a % p;
    assert a == q * p + r && 0 <= r < p;
    if 0 <= a {
      if q < 0 {
        MulLe(q + 1, 0, p);
        assert false;
      }
      MulLe(1, p, q);
    } else {
      if q >= 0 {
        MulLe(0, q, p);
        assert false;
      }
      if q < a {
        MulLe(q, a - 1, p);
        MulLe(1, p, -a);
        assert false;
      }
    }
  }

  /**
   * Java `a >> s` on ints: the distance is `s & 31`, and the shift of a
   * negative value rounds toward negative infinity. Dafny's `/` by a positive
   * divisor already floors.
   */
  function Shr(a: int32, s: int): (r: int32)
    ensures 0 <= a ==> 0 <= r <= a
    ensures a < 0 ==> a <= r < 0
  {
    DivBounds(a, Pow2(s % 32));
    a / Pow2(s % 32)
  }

  /** The shift is the floor of `a / 2^(s & 31)`. */
  lemma ShrFloor(a: int32, s: int)
    ensures Shr(a, s) * Pow2(s % 32) <= a < (Shr(a, s) + 1) * Pow2(s % 32)
  {
  }
}
