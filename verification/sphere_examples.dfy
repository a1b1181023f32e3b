/**
 * Worked pixels of the lit sphere: the light, the centre of the disc, and
 * the highlight pixel (35, -3) whose intensity overflows a byte.
 */
module SphereExamples {
  import opened Vec
  import opened CInt
  import opened IntSqrt
  import opened Primitives
  import opened Sphere

  /**
   * The raw normal of an on-sphere pixel, given the depth and the three
   * scaled components.
   */
  lemma RawNormalWith(x: int, y: int, depth: int, cx: int, cy: int, cz: int)
    requires OnSphere(x, y)
    requires FloorSqrt(SPHERE_RADIUS * SPHERE_RADIUS - (x * x + y * y)) == depth
    requires CDiv(x * 127, SPHERE_RADIUS) == cx && CDiv(y * 127, SPHERE_RADIUS) == cy
    requires CDiv(depth * 127, SPHERE_RADIUS) == cz
    requires -128 <= cx < 128 && -128 <= cy < 128 && -128 <= cz < 128
    ensures RawNormal(x, y) == PackI8(cx, cy, cz, 0)
  {
    AsI8InRange(cx);
    AsI8InRange(cy);
    AsI8InRange(cz);
  }

  /**
   * The renormalisation of a signed pack (x, y, z), given the root of its
   * squared length and the three scaled components.
   */
  lemma RenormalizedWith(x: int, y: int, z: int, len: int, nx: int, ny: int, nz: int)
    requires -128 <= x < 128 && -128 <= y < 128 && -128 <= z < 128
    requires x * x + y * y + z * z > 0
    requires FloorSqrt(x * x + y * y + z * z) == len
    requires CDiv(x * 127, len) == nx && CDiv(y * 127, len) == ny && CDiv(z * 127, len) == nz
    ensures SquaredLength(PackI8(x, y, z, 0)) == x * x + y * y + z * z
    ensures Renormalized(PackI8(x, y, z, 0)) == PackI8(nx, ny, nz, 0)
  {
    SignedRoundTrip(x, y, z, 0);
  }

  /** The normal at the centre of the disc points straight at the viewer. */
  lemma CentreNormal()
    ensures SurfaceNormal(0, 0) == PackI8(0, 0, 127, 0)
  {
    assert RawNormal(0, 0) == PackI8(0, 0, 127, 0) by {
      FloorSqrtUnique(6400, 80);
      CDivOfNatural(0, SPHERE_RADIUS);
      CDivOfNatural(80 * 127, SPHERE_RADIUS);
      RawNormalWith(0, 0, 80, 0, 0, 127);
    }
    assert Renormalized(PackI8(0, 0, 127, 0)) == PackI8(0, 0, 127, 0) by {
      FloorSqrtUnique(16129, 127);
      CDivOfNatural(0, 127);
      CDivOfNatural(127 * 127, 127);
      RenormalizedWith(0, 0, 127, 127, 0, 0, 127);
    }
  }

  /**
   * The centre pixel (0, 0) is on the sphere and lit above the ambient
   * floor: its intensity is 230.
   */
  lemma CentrePixel()
    ensures OnSphere(0, 0) && Intensity(SurfaceNormal(0, 0), LIGHT) == 230
  {
    CentreNormal();
    CentreIntensity();
  }

  /**
   * The centre pixel gets the colour (180, 45, 45), strictly between black
   * and the sphere colour.
   */
  lemma CentreColor()
    ensures SpherePixel(0, 0, LIGHT) == PackU8(180, 45, 45, 0)
  {
    assert SpherePixel(0, 0, LIGHT) == LitColor(230) by {
      CentrePixel();
      U8OfByte(230);
      LitPixel(0, 0, LIGHT, 230);
    }
    CentreLit();
  }

  /** The blend factor 230 gives the colour (180, 45, 45). */
  lemma CentreLit()
    ensures LitColor(230) == PackU8(180, 45, 45, 0)
  {
    assert 230 * 200 / 255 == 180;
    assert 230 * 50 / 255 == 45;
    LitColorIs(230, 180, 45);
  }

  /** The lit colour for factor t, given its red and green/blue channels. */
  lemma LitColorIs(t: Byte, red: Byte, other: Byte)
    requires t * 200 / 255 == red && t * 50 / 255 == other
    ensures LitColor(t) == PackU8(red, other, other, 0)
  {
    var c, want := LitColor(t), PackU8(red, other, other, 0);
    assert X(SPHERE_COLOR) == 200 && Y(SPHERE_COLOR) == 50 && Z(SPHERE_COLOR) == 50 && W(SPHERE_COLOR) == 0 by {
      UnpackPackU8(200, 50, 50, 0);
    }
    assert X(want) == red && Y(want) == other && Z(want) == other && W(want) == 0 by {
      UnpackPackU8(red, other, other, 0);
    }
    assert X(c) == red && Y(c) == other && Z(c) == other && W(c) == 0;
    ChannelsDetermineWord(c, want);
  }

  /** The renormalised normal of pixel (35, -3) is (56, -4, 114). */
  lemma HighlightNormal()
    ensures SurfaceNormal(35, -3) == PackI8(56, -4, 114, 0)
  {
    HighlightRawNormal();
    HighlightRenormalized();
  }

  /** Pixel (35, -3) has depth isqrt(5166) = 71 and raw normal (55, -4, 112). */
  lemma HighlightRawNormal()
    ensures OnSphere(35, -3) && RawNormal(35, -3) == PackI8(55, -4, 112, 0)
  {
    FloorSqrtUnique(5166, 71);
    CDivOfNatural(35 * 127, SPHERE_RADIUS);
    CDivNegated(3 * 127, SPHERE_RADIUS);
    CDivOfNatural(71 * 127, SPHERE_RADIUS);
    RawNormalWith(35, -3, 71, 55, -4, 112);
  }

  /** (55, -4, 112) has length isqrt(15585) = 124 and renormalises to (56, -4, 114). */
  lemma HighlightRenormalized()
    ensures SquaredLength(PackI8(55, -4, 112, 0)) == 15585
    ensures Renormalized(PackI8(55, -4, 112, 0)) == PackI8(56, -4, 114, 0)
  {
    FloorSqrtUnique(15585, 124);
    CDivOfNatural(55 * 127, 124);
    CDivNegated(4 * 127, 124);
    CDivOfNatural(112 * 127, 124);
    RenormalizedWith(55, -4, 112, 124, 56, -4, 114);
  }

  /**
   * At pixel (35, -3) dot3 of the normal and the light is 16322, so the
   * 32-bit intensity is 257, past the top of a byte.
   */
  lemma HighlightIntensity()
    ensures OnSphere(35, -3) && Intensity(SurfaceNormal(35, -3), LIGHT) == 257
  {
    HighlightNormal();
    HighlightNormalIntensity();
  }

  /** The normal (56, -4, 114) has dot3 16322 with LIGHT and intensity 257. */
  lemma HighlightNormalIntensity()
    ensures Intensity(PackI8(56, -4, 114, 0), LIGHT) == 257
  {
    IntensityOf(56, -4, 114, 16322, 128, 257);
  }

  /** The normal (0, 0, 127) has dot3 14605 with LIGHT and intensity 230. */
  lemma CentreIntensity()
    ensures Intensity(PackI8(0, 0, 127, 0), LIGHT) == 230
  {
    IntensityOf(0, 0, 127, 14605, 115, 230);
  }

  /**
   * The intensity of a signed pack normal (x, y, z) under LIGHT, given the
   * dot product and the two quotients.
   */
  lemma IntensityOf(x: int, y: int, z: int, dot: int, q: int, i: int)
    requires -128 <= x < 128 && -128 <= y < 128 && -128 <= z < 128
    requires x * 57 + y * -5 + z * 115 == dot
    requires 0 <= dot && dot / 127 == q && q * 255 / 127 == i && KA <= i
    ensures Intensity(PackI8(x, y, z, 0), LIGHT) == i
  {
    var n := PackI8(x, y, z, 0);
    assert Dot3(n, LIGHT) == dot by {
      Dot3OfSignedPacks(x, y, z, 57, -5, 115);
    }
    assert CDiv(Dot3(n, LIGHT), 127) == q by {
      CDivOfNatural(dot, 127);
    }
    assert CDiv(q * 255, 127) == i by {
      CDivOfNatural(q * 255, 127);
    }
  }

  /**
   * As written: the intensity 257 is narrowed to 1 by the `uint8_t`
   * parameter of lerp, and the pixel in the bright part of the sphere comes
   * out black.
   */
  lemma HighlightPixelWraps()
    ensures SpherePixel(35, -3, LIGHT) == 0
  {
    assert SpherePixel(35, -3, LIGHT) == LitColor(1) by {
      HighlightIntensity();
      assert U8(257) == 1;
      LitPixel(35, -3, LIGHT, 1);
    }
    DarkestLit();
  }

  /** The blend factor 1 rounds every channel of the sphere colour to 0. */
  lemma DarkestLit()
    ensures LitColor(1) == 0
  {
    assert 1 * 200 / 255 == 0;
    assert 1 * 50 / 255 == 0;
    LitColorIs(1, 0, 0);
  }

  /** An on-sphere pixel whose narrowed intensity is t has the lit colour for t. */
  lemma LitPixel(x: int, y: int, light: Word, t: Byte)
    requires OnSphere(x, y) && U8(Intensity(SurfaceNormal(x, y), light)) == t
    ensures SpherePixel(x, y, light) == LitColor(t)
  {
  }

  /** With the clamp, pixel (35, -3) gets the full sphere colour instead of black. */
  lemma HighlightPixelClamped()
    ensures ClampedSpherePixel(35, -3, LIGHT) == SPHERE_COLOR
  {
    assert ClampedIntensity(SurfaceNormal(35, -3), LIGHT) == 255 by {
      HighlightIntensity();
    }
    assert LitColor(255) == SPHERE_COLOR by {
      UnpackPackU8(200, 50, 50, 0);
      LerpBetween(0, SPHERE_COLOR, 255);
    }
  }
}
