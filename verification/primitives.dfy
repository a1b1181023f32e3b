/**
 * The two per-pixel primitives that the hardware build replaces by custom
 * instructions: the channel-wise blend `lerp_vec4_u8` and the signed dot
 * product `dot3`.  Both are modelled by their plain-integer reference
 * bodies, which are the contract any accelerated version must match.
 */
module Primitives {
  import opened Vec
  import opened CInt

  /**
   * One channel of `lerp_vec4_u8`: `a + t * (b - a) / 255` evaluated in
   * `unsigned int` (the channels come out of `unsigned` accessors), then
   * narrowed to `uint8_t`.  When b < a the difference wraps modulo 2^32.
   * When b >= a nothing wraps and the result is the textbook blend, which
   * stays between a and b and reaches b at t = 255.
   */
  function LerpChannel(a: Byte, b: Byte, t: Byte): (c: Byte)
    ensures t == 0 ==> c == a
    ensures a <= b ==> c == a + t * (b - a) / 255
    ensures a <= b ==> a <= c <= b
    ensures a <= b && t == 255 ==> c == b
  {
    var diff := U32(b - a);
    var scaled := U32(t * diff) / 255;
    if a <= b then
      UnsignedBlendNoWrap(a, b, t);
      U8(U32(a + scaled))
    else
      if t == 0 then
        assert scaled == 0 by {
          U32OfWord(0);
        }
        U32OfWord(a);
        U8OfByte(a);
        U8(U32(a + scaled))
      else
        U8(U32(a + scaled))
  }

  /** With b >= a the unsigned detours are all the identity. */
  lemma UnsignedBlendNoWrap(a: Byte, b: Byte, t: Byte)
    requires a <= b
    ensures U8(U32(a + U32(t * U32(b - a)) / 255)) == a + t * (b - a) / 255
    ensures a <= a + t * (b - a) / 255 <= b
    ensures t == 255 ==> a + t * (b - a) / 255 == b
    ensures t == 0 ==> a + t * (b - a) / 255 == a
  {
    var d := b - a;
    U32OfWord(d);
    var p := t * d;
    assert 0 <= p <= 255 * d by {
      MultiplyBounds(t, d);
    }
    U32OfWord(p);
    assert p / 255 <= d by {
      ScaledAtMost(p, d);
    }
    U32OfWord(a + p / 255);
    U8OfByte(a + p / 255);
  }

  lemma MultiplyBounds(t: Byte, d: Byte)
    ensures 0 <= t * d <= 255 * d
  {
    MultiplyMonotonic(d, 0, t);
    MultiplyMonotonic(d, t, 255);
  }

  /** p <= 255 * d implies p / 255 <= d. */
  lemma ScaledAtMost(p: nat, d: nat)
    requires p <= 255 * d
    ensures p / 255 <= d
  {
    FloorQuotient(p, 255);
  }

  /**
   * `lerp_vec4_u8(a, b, t)`: the four channels are blended independently
   * and packed again with VEC4_U8.
   */
  function Lerp(a: Word, b: Word, t: Byte): (r: Word)
    ensures X(r) == LerpChannel(X(a), X(b), t) && Y(r) == LerpChannel(Y(a), Y(b), t)
    ensures Z(r) == LerpChannel(Z(a), Z(b), t) && W(r) == LerpChannel(W(a), W(b), t)
  {
    var x := LerpChannel(X(a), X(b), t);
    var y := LerpChannel(Y(a), Y(b), t);
    var z := LerpChannel(Z(a), Z(b), t);
    var w := LerpChannel(W(a), W(b), t);
    UnpackPackU8(x, y, z, w);
    PackU8(x, y, z, w)
  }

  /** Blending two packed words blends their channels. */
  lemma LerpOfPacks(x1: Byte, y1: Byte, z1: Byte, w1: Byte, x2: Byte, y2: Byte, z2: Byte, w2: Byte, t: Byte)
    ensures Lerp(PackU8(x1, y1, z1, w1), PackU8(x2, y2, z2, w2), t)
      == PackU8(LerpChannel(x1, x2, t), LerpChannel(y1, y2, t), LerpChannel(z1, z2, t), LerpChannel(w1, w2, t))
  {
    UnpackPackU8(x1, y1, z1, w1);
    UnpackPackU8(x2, y2, z2, w2);
  }

  /** lerp(a, b, 0) == a for every pair of words. */
  lemma LerpAtZero(a: Word, b: Word)
    ensures Lerp(a, b, 0) == a
  {
    ChannelsDetermineWord(Lerp(a, b, 0), a);
  }

  /** Each channel of b is at least the matching channel of a. */
  predicate ChannelwiseAtMost(a: Word, b: Word) {
    X(a) <= X(b) && Y(a) <= Y(b) && Z(a) <= Z(b) && W(a) <= W(b)
  }

  /**
   * When b dominates a channel by channel, every channel of the blend lies
   * between a's and b's, and t = 255 yields b exactly.
   */
  lemma LerpBetween(a: Word, b: Word, t: Byte)
    requires ChannelwiseAtMost(a, b)
    ensures ChannelwiseAtMost(a, Lerp(a, b, t)) && ChannelwiseAtMost(Lerp(a, b, t), b)
    ensures t == 255 ==> Lerp(a, b, t) == b
  {
    if t == 255 {
      ChannelsDetermineWord(Lerp(a, b, t), b);
    }
  }

  /**
   * As written, a channel that decreases does not reach its target and can
   * even leave the interval: 255 towards 0 at t = 255 gives 1, and 255
   * towards 254 at t = 1 gives 0.
   */
  lemma LerpChannelWrapsDownward()
    ensures LerpChannel(255, 0, 255) == 1
    ensures LerpChannel(255, 254, 1) == 0
  {
    assert U32(0 - 255) == 0xFFFF_FF01;
    assert U32(255 * 0xFFFF_FF01) == 0xFFFF_01FF;
    assert 0xFFFF_01FF / 255 == 0x0101_0002;
    assert U32(255 + 0x0101_0002) == 0x0101_0101;
    assert U32(254 - 255) == 0xFFFF_FFFF;
    assert U32(1 * 0xFFFF_FFFF) == 0xFFFF_FFFF;
    assert 0xFFFF_FFFF / 255 == 0x0101_0101;
    assert U32(255 + 0x0101_0101) == 0x0101_0200;
  }

  /**
   * The exact effect of the wrap on a decreasing channel (b < a, t >= 1).
   * The wrapped difference is 2^32 - t * (a - b), and 2^32 is one more than
   * a multiple of 255 whose quotient, 0x0101_0101, leaves 1 in the low
   * byte.  So the stored channel is the signed blend plus one, modulo 256,
   * when t * (a - b) leaves a remainder of 0 or 1 modulo 255, and exactly
   * the signed blend otherwise.
   */
  lemma LerpChannelBelow(a: Byte, b: Byte, t: Byte)
    requires b < a && 1 <= t
    ensures LerpChannel(a, b, t)
      == (SignedLerpChannel(a, b, t) + (if t * (a - b) % 255 <= 1 then 1 else 0)) % 256
  {
    var scaled := U32(t * U32(b - a)) / 255;
    assert LerpChannel(a, b, t) == U8(U32(a + scaled));
    var q, e := SignedBelow(a, b, t);
    WrappedQuotient(a - b, t);
    StoredChannel(a, scaled, q, e);
  }

  /** The signed blend of a falling channel, with the quotient and the remainder test named. */
  lemma SignedBelow(a: Byte, b: Byte, t: Byte) returns (q: int, e: int)
    requires b < a
    ensures q == t * (a - b) / 255 && e == (if t * (a - b) % 255 <= 1 then 1 else 0)
    ensures SignedLerpChannel(a, b, t) == a - q && 0 <= a - q <= 255
  {
    var d := a - b;
    q := t * d / 255;
    e := if t * d % 255 <= 1 then 1 else 0;
    assert t * (b - a) == -(t * d);
    ScaledStep(d, t);
    CDivNegated(t * d, 255);
  }

  /** Adding the wrapped quotient to a and narrowing to a byte. */
  lemma StoredChannel(a: Byte, scaled: int, q: int, e: int)
    requires 0 <= a - q <= 255 && 0 <= e <= 1 && scaled == 0x0101_0101 - q - (1 - e)
    ensures U8(U32(a + scaled)) == (a - q + e) % 256
  {
    U32OfWord(a + scaled);
    LowByteAfterWrap(a + scaled, a - q + e);
  }

  /**
   * The wrapped difference of a channel falling by d, scaled by t and
   * divided by 255: 2^32 - t * d divided by 255, where 2^32 is
   * 255 * 0x0101_0101 + 1.
   */
  lemma WrappedQuotient(d: int, t: int)
    requires 1 <= d <= 255 && 1 <= t <= 255
    ensures U32(t * U32(-d)) / 255
      == 0x0101_0101 - t * d / 255 - (if t * d % 255 <= 1 then 0 else 1)
  {
    var p := t * d;
    assert 1 <= p <= 255 * 255 by {
      MultiplyMonotonic(t, 1, d);
      MultiplyMonotonic(d, t, 255);
      MultiplyMonotonic(255, d, 255);
    }
    assert U32(-d) == TWO32 - d by {
      DivModUnique(-d, TWO32, -1, TWO32 - d);
    }
    assert U32(t * (TWO32 - d)) == TWO32 - p by {
      assert t * (TWO32 - d) == (t - 1) * TWO32 + (TWO32 - p);
      DivModUnique(t * (TWO32 - d), TWO32, t - 1, TWO32 - p);
    }
    var q, r := p / 255, p % 255;
    assert p == q * 255 + r;
    if r <= 1 {
      DivModUnique(TWO32 - p, 255, 0x0101_0101 - q, 1 - r);
    } else {
      DivModUnique(TWO32 - p, 255, 0x0101_0101 - q - 1, 256 - r);
    }
  }

  /** 0x0101_0101 leaves 1 in the low byte: n == 0x0101_0100 + c keeps c modulo 256. */
  lemma LowByteAfterWrap(n: int, c: int)
    requires 0 <= c <= 256 && n == 0x0101_0100 + c
    ensures U8(n) == c % 256
  {
    if c < 256 {
      DivModUnique(n, 256, 65793, c);
    } else {
      DivModUnique(n, 256, 65794, 0);
    }
  }

  /** At t = 255 a decreasing channel stops one above its target. */
  lemma LerpChannelFullBelow(a: Byte, b: Byte)
    requires b < a
    ensures LerpChannel(a, b, 255) == b + 1
  {
    LerpChannelBelow(a, b, 255);
    assert 255 * (a - b) % 255 == 0 by {
      DivModUnique(255 * (a - b), 255, a - b, 0);
    }
  }

  /**
   * `lerp(a, b, 255) == b` holds exactly when no channel of b is below the
   * matching channel of a.
   */
  lemma LerpReachesTarget(a: Word, b: Word)
    ensures Lerp(a, b, 255) == b <==> ChannelwiseAtMost(a, b)
  {
    if ChannelwiseAtMost(a, b) {
      LerpBetween(a, b, 255);
    } else if X(b) < X(a) {
      LerpChannelFullBelow(X(a), X(b));
    } else if Y(b) < Y(a) {
      LerpChannelFullBelow(Y(a), Y(b));
    } else if Z(b) < Z(a) {
      LerpChannelFullBelow(Z(a), Z(b));
    } else {
      LerpChannelFullBelow(W(a), W(b));
    }
  }

  /**
   * The blend with a signed difference, `a + (t * (b - a)) / 255` in `int`
   * with C's truncating division: what the unsigned expression evidently
   * means to compute.
   */
  function SignedLerpChannel(a: Byte, b: Byte, t: Byte): (c: Byte)
    ensures t == 0 ==> c == a
    ensures t == 255 ==> c == b
    ensures a <= b ==> a <= c <= b
    ensures b <= a ==> b <= c <= a
  {
    var p := t * (b - a);
    var q := CDiv(p, 255);
    if a <= b then
      ScaledStep(b - a, t);
      CDivOfNatural(p, 255);
      a + q
    else
      ScaledStep(a - b, t);
      assert p == -(t * (a - b));
      CDivNegated(t * (a - b), 255);
      a + q
  }

  /** t * d / 255 lies in [0, d], is 0 at t = 0 and d at t = 255. */
  lemma ScaledStep(d: Byte, t: Byte)
    ensures 0 <= t * d / 255 <= d
    ensures t == 0 ==> t * d / 255 == 0
    ensures t == 255 ==> t * d / 255 == d
  {
    MultiplyBounds(t, d);
    ScaledAtMost(t * d, d);
  }

  /** Where the unsigned expression does not wrap, the two blends agree. */
  lemma SignedLerpAgrees(a: Byte, b: Byte, t: Byte)
    requires a <= b
    ensures LerpChannel(a, b, t) == SignedLerpChannel(a, b, t)
  {
    var p := t * (b - a);
    assert 0 <= p by {
      MultiplyBounds(t, b - a);
    }
    assert CDiv(p, 255) == p / 255 by {
      CDivOfNatural(p, 255);
    }
    assert SignedLerpChannel(a, b, t) == a + p / 255;
  }

  /** The corrected word-level blend. */
  function SignedLerp(a: Word, b: Word, t: Byte): (r: Word)
    ensures X(r) == SignedLerpChannel(X(a), X(b), t) && Y(r) == SignedLerpChannel(Y(a), Y(b), t)
    ensures Z(r) == SignedLerpChannel(Z(a), Z(b), t) && W(r) == SignedLerpChannel(W(a), W(b), t)
  {
    var x := SignedLerpChannel(X(a), X(b), t);
    var y := SignedLerpChannel(Y(a), Y(b), t);
    var z := SignedLerpChannel(Z(a), Z(b), t);
    var w := SignedLerpChannel(W(a), W(b), t);
    UnpackPackU8(x, y, z, w);
    PackU8(x, y, z, w)
  }

  /** The signed blend of two packed words blends their channels. */
  lemma SignedLerpOfPacks(x1: Byte, y1: Byte, z1: Byte, w1: Byte, x2: Byte, y2: Byte, z2: Byte, w2: Byte, t: Byte)
    ensures SignedLerp(PackU8(x1, y1, z1, w1), PackU8(x2, y2, z2, w2), t)
      == PackU8(SignedLerpChannel(x1, x2, t), SignedLerpChannel(y1, y2, t), SignedLerpChannel(z1, z2, t), SignedLerpChannel(w1, w2, t))
  {
    UnpackPackU8(x1, y1, z1, w1);
    UnpackPackU8(x2, y2, z2, w2);
  }

  /** The corrected blend meets both end points for every pair of words. */
  lemma SignedLerpEndpoints(a: Word, b: Word)
    ensures SignedLerp(a, b, 0) == a && SignedLerp(a, b, 255) == b
  {
    ChannelsDetermineWord(SignedLerp(a, b, 0), a);
    ChannelsDetermineWord(SignedLerp(a, b, 255), b);
  }

  /** A product of two `int8_t` values. */
  lemma Int8Product(p: int, q: int)
    requires -128 <= p < 128 && -128 <= q < 128
    ensures -16256 <= p * q <= 16384
  {
    if p >= 0 && q >= 0 {
      MultiplyMonotonic(p, 0, q);
      MultiplyMonotonic(p, q, 127);
    } else if p < 0 && q < 0 {
      assert p * q == (-p) * (-q);
      MultiplyMonotonic(-p, 0, -q);
      MultiplyMonotonic(-p, -q, 128);
    } else if p < 0 {
      assert p * q == -((-p) * q);
      MultiplyMonotonic(-p, 0, q);
      MultiplyMonotonic(-p, q, 127);
    } else {
      assert p * q == -(p * (-q));
      MultiplyMonotonic(-q, 0, p);
      MultiplyMonotonic(-q, p, 127);
    }
  }

  /**
   * `dot3(a, b)`: the sum of the products of the X, Y and Z channels, each
   * read through the `(int8_t)` cast; W takes no part.  The result always
   * fits in `int32_t`.
   */
  function Dot3(a: Word, b: Word): (r: int)
    ensures -3 * 16256 <= r <= 3 * 16384
  {
    Int8Product(AsI8(X(a)), AsI8(X(b)));
    Int8Product(AsI8(Y(a)), AsI8(Y(b)));
    Int8Product(AsI8(Z(a)), AsI8(Z(b)));
    AsI8(X(a)) * AsI8(X(b)) + AsI8(Y(a)) * AsI8(Y(b)) + AsI8(Z(a)) * AsI8(Z(b))
  }

  /** dot3 is symmetric. */
  lemma Dot3Symmetric(a: Word, b: Word)
    ensures Dot3(a, b) == Dot3(b, a)
  {
  }

  /** The W channel of either argument does not affect dot3. */
  lemma Dot3IgnoresW(a: Word, b: Word, w: Byte)
    ensures Dot3(PackU8(X(a), Y(a), Z(a), w), b) == Dot3(a, b)
    ensures Dot3(a, PackU8(X(b), Y(b), Z(b), w)) == Dot3(a, b)
  {
    UnpackPackU8(X(a), Y(a), Z(a), w);
    UnpackPackU8(X(b), Y(b), Z(b), w);
  }

  /** On signed packs of `int8_t` components dot3 is the ordinary dot product. */
  lemma Dot3OfSignedPacks(x1: int, y1: int, z1: int, x2: int, y2: int, z2: int)
    requires -128 <= x1 < 128 && -128 <= y1 < 128 && -128 <= z1 < 128
    requires -128 <= x2 < 128 && -128 <= y2 < 128 && -128 <= z2 < 128
    ensures Dot3(PackI8(x1, y1, z1, 0), PackI8(x2, y2, z2, 0)) == x1 * x2 + y1 * y2 + z1 * z2
  {
    SignedRoundTrip(x1, y1, z1, 0);
    SignedRoundTrip(x2, y2, z2, 0);
  }
}
