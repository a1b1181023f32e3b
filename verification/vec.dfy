/**
 * Packed 4 x 8-bit words (vec.h, and the copy of its macros at the top of
 * rasterizer_lerp.c).
 *
 * A word holds four channels X, Y, Z, W, X in the most significant byte:
 * bits 31..24 = X, 23..16 = Y, 15..8 = Z, 7..0 = W.  The word is the C
 * `unsigned int`, so it is modelled as an integer in [0, 2^32): the
 * accessors shift an unsigned word, so a logical right shift by k is a
 * division by 2^k and `& 0xFF` is `% 256`.
 *
 * The packers are different: their operands are `int` (a promoted `uint8_t`,
 * a literal, a masked `int`), and for a byte of 128 or more `<< 24` does not
 * fit in an `int`, which ISO C leaves undefined (C11 section 6.5.7,
 * paragraph 4).  GCC, the compiler this program is built with, defines the
 * result as the two's-complement bit pattern, and once the `int` result is
 * stored in the unsigned word that pattern reads back as the weighted sum of
 * the four bytes.  The model takes GCC's result.
 */
module Vec {
  import opened CInt

  /** An 8-bit unsigned channel value. */
  type Byte = b: int | 0 <= b < 256

  /** A 32-bit unsigned word (`vec4_u8_t` / `vec4_i8_t`). */
  type Word = w: int | 0 <= w < 0x1_0000_0000

  /** VEC4_X: the word shifted right by 24. */
  function X(v: Word): Byte { v / 0x100_0000 }

  /** VEC4_Y: the word shifted right by 16, low byte kept. */
  function Y(v: Word): Byte { v / 0x1_0000 % 256 }

  /** VEC4_Z: the word shifted right by 8, low byte kept. */
  function Z(v: Word): Byte { v / 0x100 % 256 }

  /** VEC4_W: the low byte. */
  function W(v: Word): Byte { v % 256 }

  /**
   * VEC4_U8: channels shifted to their positions and or-ed together.  Every
   * use in the program passes values that already fit in a byte (`uint8_t`
   * locals or literal colours), so the or of disjoint bytes is a sum.  The
   * shifts are on `int`: an X channel of 128 or more overflows it, and the
   * sum is the word GCC's two's-complement shift leaves once the result is
   * stored as `unsigned`.
   */
  function PackU8(x: Byte, y: Byte, z: Byte, w: Byte): Word {
    x * 0x100_0000 + y * 0x1_0000 + z * 0x100 + w
  }

  /**
   * VEC4_I8: each (signed, `int`) component is masked with `& 0xFF` before it
   * is shifted.  On a two's-complement `int`, `c & 0xFF` is the Euclidean
   * remainder `c % 256`, for negative `c` too.  The masked byte is still an
   * `int`, so, as for VEC4_U8, an X byte of 128 or more (any negative x)
   * overflows `<< 24`, and the model takes GCC's two's-complement result.
   */
  function PackI8(x: int, y: int, z: int, w: int): Word {
    PackU8(x % 256, y % 256, z % 256, w % 256)
  }

  /**
   * The `(int8_t)` cast: the unique value in [-128, 127] congruent to `c`
   * modulo 256 (two's-complement reading of the low byte).
   */
  function AsI8(c: int): (r: int)
    ensures -128 <= r < 128
    ensures (r - c) % 256 == 0
  {
    var m := c % 256;
    if m < 128 then m else m - 256
  }

  /** The cast leaves values already in [-128, 127] alone. */
  lemma AsI8InRange(c: int)
    requires -128 <= c < 128
    ensures AsI8(c) == c
  {
  }

  /** Unpacking a packed unsigned word gives back each channel. */
  lemma UnpackPackU8(x: Byte, y: Byte, z: Byte, w: Byte)
    ensures X(PackU8(x, y, z, w)) == x && Y(PackU8(x, y, z, w)) == y
    ensures Z(PackU8(x, y, z, w)) == z && W(PackU8(x, y, z, w)) == w
  {
    var v := PackU8(x, y, z, w);
    DivModUnique(v, 0x100_0000, x, y * 0x1_0000 + z * 0x100 + w);
    DivModUnique(v, 0x1_0000, x * 0x100 + y, z * 0x100 + w);
    DivModUnique(x * 0x100 + y, 0x100, x, y);
    DivModUnique(v, 0x100, x * 0x1_0000 + y * 0x100 + z, w);
    DivModUnique(x * 0x1_0000 + y * 0x100 + z, 0x100, x * 0x100 + y, z);
  }

  /** Repacking the four channels of any word gives the word back. */
  lemma Repack(v: Word)
    ensures PackU8(X(v), Y(v), Z(v), W(v)) == v
  {
    var x := v / 0x100_0000;
    var r1 := v % 0x100_0000;
    var y, r2 := r1 / 0x1_0000, r1 % 0x1_0000;
    var z, w := r2 / 0x100, r2 % 0x100;
    assert v == PackU8(x, y, z, w);
    UnpackPackU8(x, y, z, w);
  }

  /** Two words with the same four channels are the same word. */
  lemma ChannelsDetermineWord(u: Word, v: Word)
    requires X(u) == X(v) && Y(u) == Y(v) && Z(u) == Z(v) && W(u) == W(v)
    ensures u == v
  {
    Repack(u);
    Repack(v);
  }

  /**
   * Masking keeps a component inside its own byte: each channel of a signed
   * pack is exactly the low byte of the matching component, whatever the
   * other components are (negative ones included).
   */
  lemma UnpackPackI8(x: int, y: int, z: int, w: int)
    ensures X(PackI8(x, y, z, w)) == x % 256 && Y(PackI8(x, y, z, w)) == y % 256
    ensures Z(PackI8(x, y, z, w)) == z % 256 && W(PackI8(x, y, z, w)) == w % 256
  {
    UnpackPackU8(x % 256, y % 256, z % 256, w % 256);
  }

  /**
   * Components in [-128, 127] survive a signed pack: reading a channel back
   * through the `(int8_t)` cast returns the original component.
   */
  lemma SignedRoundTrip(x: int, y: int, z: int, w: int)
    requires -128 <= x < 128 && -128 <= y < 128 && -128 <= z < 128 && -128 <= w < 128
    ensures AsI8(X(PackI8(x, y, z, w))) == x && AsI8(Y(PackI8(x, y, z, w))) == y
    ensures AsI8(Z(PackI8(x, y, z, w))) == z && AsI8(W(PackI8(x, y, z, w))) == w
  {
    UnpackPackI8(x, y, z, w);
    AsI8OfLowByte(x);
    AsI8OfLowByte(y);
    AsI8OfLowByte(z);
    AsI8OfLowByte(w);
  }

  /** The cast undoes the mask for components in [-128, 127]. */
  lemma AsI8OfLowByte(c: int)
    requires -128 <= c < 128
    ensures AsI8(c % 256) == c
  {
    var m := if c < 0 then c + 256 else c;
    DivModUnique(c, 256, if c < 0 then -1 else 0, m);
    DivModUnique(m, 256, 0, m);
  }

  /** For components that are already bytes the two packers agree. */
  lemma SignedPackOfBytes(x: Byte, y: Byte, z: Byte, w: Byte)
    ensures PackI8(x, y, z, w) == PackU8(x, y, z, w)
  {
    DivModUnique(x, 256, 0, x);
    DivModUnique(y, 256, 0, y);
    DivModUnique(z, 256, 0, z);
    DivModUnique(w, 256, 0, w);
  }
}
