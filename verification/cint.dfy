/**
 * The C integer semantics the rasterizer relies on, written out because
 * Dafny's integers are unbounded and its division is Euclidean.
 */
module CInt {

  const TWO32 := 0x1_0000_0000
  const INT32_MAX := 0x7FFF_FFFF

  /** Conversion to `unsigned int`: arithmetic modulo 2^32. */
  function U32(i: int): (r: int)
    ensures 0 <= r < TWO32
    ensures (r - i) % TWO32 == 0
  {
    i % TWO32
  }

  /** Conversion of a 32-bit pattern to `int32_t` (two's complement). */
  function I32(i: int): (r: int)
    ensures -0x8000_0000 <= r <= INT32_MAX
    ensures (r - i) % TWO32 == 0
  {
    var m := i % TWO32;
    if m <= INT32_MAX then m else m - TWO32
  }

  /** Narrowing to `uint8_t`: the value modulo 256. */
  function U8(i: int): (r: int)
    ensures 0 <= r < 256
    ensures (r - i) % 256 == 0
  {
    i % 256
  }

  function Abs(i: int): nat { if i < 0 then -i else i }

  /**
   * C's `/` on signed integers: the quotient is truncated toward zero.  Its
   * magnitude is the floor of |a| / |b| and it is negative exactly when the
   * operands have opposite signs (and the quotient is not zero).
   */
  function CDiv(a: int, b: int): (q: int)
    requires b != 0
    ensures Abs(q) * Abs(b) <= Abs(a) < (Abs(q) + 1) * Abs(b)
    ensures q == 0 || (q < 0 <==> (a < 0) != (b < 0))
  {
    var n, d := Abs(a), Abs(b);
    var m := n / d;
    FloorQuotient(n, d);
    if (a < 0) == (b < 0) then m else -m
  }

  /** The quotient of naturals brackets the dividend between multiples of the divisor. */
  lemma FloorQuotient(n: nat, d: int)
    requires 0 < d
    ensures 0 <= n / d && n / d * d <= n < (n / d + 1) * d
  {
    var m := n / d;
    assert n == m * d + n % d;
    assert (m + 1) * d == m * d + d;
  }

  /** A value that fits in `int32_t` survives the unsigned detour unchanged. */
  lemma I32OfU32(v: int)
    requires -0x8000_0000 <= v <= INT32_MAX
    ensures I32(U32(v)) == v
  {
  }

  /** A square is non-negative, and zero only for zero. */
  lemma SquareFacts(p: int)
    ensures p * p >= 0
    ensures p * p == 0 <==> p == 0
  {
    if p < 0 {
      assert p * p == (-p) * (-p);
    }
  }

  /** Multiplying by a non-negative factor keeps the order. */
  lemma MultiplyMonotonic(x: nat, a: int, b: int)
    requires a <= b
    ensures x * a <= x * b
  {
    assert x * b - x * a == x * (b - a);
  }

  /**
   * Quotient and remainder are unique: n == q * d + r with 0 <= r < d
   * makes q and r Dafny's (Euclidean) n / d and n % d.
   */
  lemma DivModUnique(n: int, d: int, q: int, r: int)
    requires 0 < d && 0 <= r < d && n == q * d + r
    ensures n / d == q && n % d == r
  {
    var k := q - n / d;
    assert k * d == n % d - r;
    if k >= 1 {
      MultiplyMonotonic(d, 1, k);
    } else if k <= -1 {
      MultiplyMonotonic(d, k, -1);
    }
  }

  /** Reducing a value that already fits in 32 unsigned bits keeps it. */
  lemma U32OfWord(i: int)
    requires 0 <= i < TWO32
    ensures U32(i) == i
  {
  }

  /** Narrowing a value that already fits in a byte keeps it. */
  lemma U8OfByte(i: int)
    requires 0 <= i < 256
    ensures U8(i) == i
  {
  }

  /** With non-negative operands C's division is Dafny's. */
  lemma CDivOfNatural(a: int, b: int)
    requires 0 <= a && 0 < b
    ensures CDiv(a, b) == a / b
  {
  }

  /** Truncation is symmetric about zero: (-a) / b == -(a / b). */
  lemma CDivNegated(a: int, b: int)
    requires 0 <= a && 0 < b
    ensures CDiv(-a, b) == -(a / b)
  {
  }

  /** Values that differ by a multiple of 2^32 have the same `unsigned int` representation. */
  lemma U32Congruent(a: int, b: int, k: int)
    requires a == b + k * TWO32
    ensures U32(a) == U32(b)
  {
    DivModUnique(a, TWO32, b / TWO32 + k, b % TWO32);
  }

  /** Unsigned addition is addition modulo 2^32. */
  lemma U32OfSum(a: int, b: int)
    ensures U32(U32(a) + U32(b)) == U32(a + b)
  {
    U32Congruent(a + b, U32(a) + U32(b), a / TWO32 + b / TWO32);
  }

  /** Unsigned multiplication is multiplication modulo 2^32. */
  lemma U32OfProduct(a: int, b: int)
    ensures U32(U32(a) * U32(b)) == U32(a * b)
  {
    var ka, kb := a / TWO32, b / TWO32;
    var ra, rb := U32(a), U32(b);
    assert a == ka * TWO32 + ra && b == kb * TWO32 + rb;
    var k := ka * rb + ra * kb + ka * kb * TWO32;
    assert a * b == (ka * TWO32 + ra) * (kb * TWO32 + rb);
    assert (ka * TWO32 + ra) * (kb * TWO32 + rb) == ra * rb + k * TWO32;
    U32Congruent(a * b, ra * rb, k);
  }

  /** A product of two values in [-255, 255]. */
  lemma ByteDifferenceProduct(p: int, q: int)
    requires -255 <= p <= 255 && -255 <= q <= 255
    ensures -65025 <= p * q <= 65025
  {
    assert Abs(p * q) == Abs(p) * Abs(q);
    MultiplyMonotonic(Abs(p), Abs(q), 255);
    MultiplyMonotonic(255, Abs(p), 255);
  }

  /**
   * `p * q + r * s` on byte differences, evaluated in `unsigned int` (each
   * operand first converted) and stored in an `int32_t`, is the exact value.
   */
  lemma UnsignedSumOfProductsExact(p: int, q: int, r: int, s: int)
    requires -255 <= p <= 255 && -255 <= q <= 255 && -255 <= r <= 255 && -255 <= s <= 255
    ensures I32(U32(U32(U32(p) * U32(q)) + U32(U32(r) * U32(s)))) == p * q + r * s
  {
    U32OfProduct(p, q);
    U32OfProduct(r, s);
    U32OfSum(p * q, r * s);
    ByteDifferenceProduct(p, q);
    ByteDifferenceProduct(r, s);
    I32OfU32(p * q + r * s);
  }

  /** An exact multiple divides back: (k * d) / d == k, for either sign. */
  lemma CDivExact(k: int, d: int)
    requires d != 0
    ensures CDiv(k * d, d) == k
  {
    assert Abs(k * d) == Abs(k) * Abs(d);
    DivModUnique(Abs(k) * Abs(d), Abs(d), Abs(k), 0);
  }

  /** Negating both operands leaves the truncated quotient unchanged. */
  lemma CDivBothNegated(a: int, b: int)
    requires b != 0
    ensures CDiv(-a, -b) == CDiv(a, b)
  {
  }
}
