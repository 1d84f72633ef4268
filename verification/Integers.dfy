/** Fixed-width integers and C arithmetic, written out over `int`. */
module Integers {

  type byte = x: int | 0 <= x < 256

  const TWO_31: int := 0x8000_0000
  const TWO_32: int := 0x1_0000_0000

  type uint32 = x: int | 0 <= x < TWO_32

  /** Conversion to `uint32_t`: reduction modulo 2^32. */
  function U32(x: int): uint32 {
    x % TWO_32
  }

  /** Conversion to `int32_t`: the representative of x in [-2^31, 2^31). */
  function I32(x: int): (r: int)
    ensures -TWO_31 <= r < TWO_31
    ensures U32(r) == U32(x)
  {
    var u := x % TWO_32;
    if u < TWO_31 then u else u - TWO_32
  }

  /** Both conversions keep a number modulo 2^32, in the range of their type. */
  lemma Widths(x: int)
    ensures 0 <= U32(x) <= 4_294_967_295 && (x - U32(x)) % 4_294_967_296 == 0
    ensures -2_147_483_648 <= I32(x) <= 2_147_483_647 && (x - I32(x)) % 4_294_967_296 == 0
  {
  }

  /** Adding on the counter or on the signed difference comes to the same. */
  lemma I32Add(a: int, b: int, q: int)
    ensures I32(U32(a + q) - b) == I32(I32(a - b) + q)
  {
  }

  lemma U32Next(x: int, n: int)
    ensures U32(U32(x + n) + 1) == U32(x + n + 1)
  {
  }

  lemma I32Small(x: int)
    requires -TWO_31 <= x < TWO_31
    ensures I32(x) == x
  {
  }

  /** C division truncates toward zero. */
  function CDiv(a: int, b: int): int
    requires b > 0
  {
    if a >= 0 then a / b else -((-a) / b)
  }

  /** C remainder has the sign of the dividend. */
  function CMod(a: int, b: int): (r: int)
    requires b > 0
    ensures a == CDiv(a, b) * b + r && -b < r < b
  {
    a - CDiv(a, b) * b
  }

  function Min(a: int, b: int): int {
    if a <= b then a else b
  }

  function Max(a: int, b: int): int {
    if a <= b then b else a
  }

  // ----- products and quotients by a variable

  lemma MulMonotone(a: int, b: int, p: int)
    requires a <= b && p >= 0
    ensures a * p <= b * p
  {
    assert (b - a) * p >= 0;
  }

  lemma DivBounds(a: int, p: int)
    requires p > 0
    ensures a / p * p <= a < (a / p + 1) * p
  {
    assert a == a / p * p + a % p;
  }

  /** The quotient is the only q with q * p <= a < (q + 1) * p. */
  lemma DivUnique(a: int, p: int, q: int)
    requires p > 0 && q * p <= a < (q + 1) * p
    ensures a / p == q
  {
    DivBounds(a, p);
    if a / p < q {
      MulMonotone(a / p + 1, q, p);
    } else if q < a / p {
      MulMonotone(q + 1, a / p, p);
    }
  }

  lemma RemainderUnique(a: int, p: int, q: int, r: int)
    requires p > 0 && a == q * p + r && 0 <= r < p
    ensures a % p == r && a / p == q
  {
    DivUnique(a, p, q);
  }

  lemma DivMonotone(a: int, b: int, p: int)
    requires p > 0 && a <= b
    ensures a / p <= b / p
  {
    DivBounds(a, p);
    DivBounds(b, p);
    if b / p < a / p {
      MulMonotone(b / p + 1, a / p, p);
    }
  }
}
