/**
 * The lit sphere of rasterizer_ilum.c: the light direction is normalised
 * once, then every pixel of the centred screen is either background or a
 * shade of the sphere colour given by a diffuse term with an ambient floor.
 */
module Sphere {
  import opened Vec
  import opened CInt
  import opened IntSqrt
  import opened Primitives

  const WIDTH := 256
  const HEIGHT := 256
  const SPHERE_RADIUS := 80
  /** Ambient floor of the intensity. */
  const KA := 50
  const BACKGROUND_COLOR: Word := PackU8(15, 15, 100, 0)
  const SPHERE_COLOR: Word := PackU8(200, 50, 50, 0)
  /** Unnormalised light direction, a signed pack. */
  const LIGHT_DIR: Word := PackI8(10, -1, 20, 0)

  /**
   * The squared length `x*x + y*y + z*z` of a signed direction, each
   * component read through the `(int8_t)` cast: the same sum of products
   * as dot3 of the direction with itself.  It is zero only for the zero
   * direction.
   */
  function SquaredLength(v: Word): (r: int)
    ensures 0 <= r <= 3 * 16384
    ensures r == 0 <==> AsI8(X(v)) == 0 && AsI8(Y(v)) == 0 && AsI8(Z(v)) == 0
  {
    SquareFacts(AsI8(X(v)));
    SquareFacts(AsI8(Y(v)));
    SquareFacts(AsI8(Z(v)));
    Dot3(v, v)
  }

  /** Each component squared is at most the squared length. */
  lemma ComponentsWithinLength(v: Word)
    ensures AsI8(X(v)) * AsI8(X(v)) <= SquaredLength(v)
    ensures AsI8(Y(v)) * AsI8(Y(v)) <= SquaredLength(v)
    ensures AsI8(Z(v)) * AsI8(Z(v)) <= SquaredLength(v)
  {
    SquareFacts(AsI8(X(v)));
    SquareFacts(AsI8(Y(v)));
    SquareFacts(AsI8(Z(v)));
  }

  /** A component no longer than the length scales into [-127, 127]. */
  lemma ScaledComponent(c: int, len: int)
    requires 1 <= len && Abs(c) <= len
    ensures -127 <= CDiv(c * 127, len) <= 127
  {
    var q := CDiv(c * 127, len);
    assert Abs(c * 127) == Abs(c) * 127;
    MultiplyMonotonic(127, Abs(c), len);
    if Abs(q) > 127 {
      MultiplyMonotonic(len, 128, Abs(q));
      assert false;
    }
  }

  /**
   * Rescaling a non-zero direction to the 127-means-one convention: each
   * `(int8_t)` component times 127, divided (truncating) by the integer
   * square root of the squared length, packed signed with W = 0.  Every
   * component lies in [-127, 127], because no component is longer than the
   * root.
   */
  function Renormalized(v: Word): (r: Word)
    requires SquaredLength(v) > 0
    ensures -127 <= AsI8(X(r)) <= 127 && -127 <= AsI8(Y(r)) <= 127
    ensures -127 <= AsI8(Z(r)) <= 127 && W(r) == 0
  {
    var len := FloorSqrt(SquaredLength(v));
    var x, y, z := AsI8(X(v)), AsI8(Y(v)), AsI8(Z(v));
    ComponentsScale(v);
    var nx, ny, nz := CDiv(x * 127, len), CDiv(y * 127, len), CDiv(z * 127, len);
    DirectionPack(nx, ny, nz);
    PackI8(nx, ny, nz, 0)
  }

  /** A signed pack of components in [-127, 127] with W = 0 reads them back. */
  lemma DirectionPack(x: int, y: int, z: int)
    requires -127 <= x <= 127 && -127 <= y <= 127 && -127 <= z <= 127
    ensures AsI8(X(PackI8(x, y, z, 0))) == x && AsI8(Y(PackI8(x, y, z, 0))) == y
    ensures AsI8(Z(PackI8(x, y, z, 0))) == z && W(PackI8(x, y, z, 0)) == 0
  {
    SignedRoundTrip(x, y, z, 0);
    UnpackPackI8(x, y, z, 0);
  }

  /** The root of a non-zero squared length is positive and bounds every component. */
  lemma ComponentsScale(v: Word)
    requires SquaredLength(v) > 0
    ensures 1 <= FloorSqrt(SquaredLength(v))
    ensures -127 <= CDiv(AsI8(X(v)) * 127, FloorSqrt(SquaredLength(v))) <= 127
    ensures -127 <= CDiv(AsI8(Y(v)) * 127, FloorSqrt(SquaredLength(v))) <= 127
    ensures -127 <= CDiv(AsI8(Z(v)) * 127, FloorSqrt(SquaredLength(v))) <= 127
  {
    var n := SquaredLength(v);
    var len := FloorSqrt(n);
    ComponentsWithinLength(v);
    BelowFloorSqrt(AsI8(X(v)), n);
    BelowFloorSqrt(AsI8(Y(v)), n);
    BelowFloorSqrt(AsI8(Z(v)), n);
    ScaledComponent(AsI8(X(v)), len);
    ScaledComponent(AsI8(Y(v)), len);
    ScaledComponent(AsI8(Z(v)), len);
  }

  /**
   * The normalisation as the program runs it: the squared length, `isqrt`,
   * and the three truncating divisions by the root.
   */
  method NormalizeDirection(v: Word) returns (r: Word)
    requires SquaredLength(v) > 0
    ensures r == Renormalized(v)
  {
    var len2 := AsI8(X(v)) * AsI8(X(v)) + AsI8(Y(v)) * AsI8(Y(v)) + AsI8(Z(v)) * AsI8(Z(v));
    var len := Isqrt(len2);
    r := PackI8(CDiv(AsI8(X(v)) * 127, len), CDiv(AsI8(Y(v)) * 127, len), CDiv(AsI8(Z(v)) * 127, len), 0);
  }

  /** The configured light, length isqrt(501) = 22, normalises to (57, -5, 115). */
  lemma LightNormalized()
    ensures SquaredLength(LIGHT_DIR) == 501
    ensures Renormalized(LIGHT_DIR) == PackI8(57, -5, 115, 0)
  {
    SignedRoundTrip(10, -1, 20, 0);
    assert AsI8(X(LIGHT_DIR)) == 10 && AsI8(Y(LIGHT_DIR)) == -1 && AsI8(Z(LIGHT_DIR)) == 20;
    assert SquaredLength(LIGHT_DIR) == 501;
    LightLength();
    assert CDiv(10 * 127, 22) == 57;
    assert CDiv(-1 * 127, 22) == -5;
    assert CDiv(20 * 127, 22) == 115;
  }

  /** The light `main` computes once before the pixel loops: LIGHT. */
  method NormalizedLight() returns (light: Word)
    ensures light == LIGHT && W(light) == 0
  {
    LightNormalized();
    light := NormalizeDirection(LIGHT_DIR);
    SignedRoundTrip(57, -5, 115, 0);
  }

  lemma LightLength()
    ensures FloorSqrt(501) == 22
  {
    FloorSqrtUnique(501, 22);
  }

  /** The pixel (x, y) of the centred screen lies on the sphere's disc. */
  predicate OnSphere(x: int, y: int) {
    x * x + y * y <= SPHERE_RADIUS * SPHERE_RADIUS
  }

  /**
   * The unnormalised normal at an on-sphere pixel: depth from `isqrt` of
   * R*R - dist2, and each of x, y and the depth scaled by 127 / R with a
   * truncating division and an `(int8_t)` cast, packed signed.
   */
  function RawNormal(x: int, y: int): Word
    requires OnSphere(x, y)
  {
    var nz := FloorSqrt(SPHERE_RADIUS * SPHERE_RADIUS - (x * x + y * y));
    PackI8(AsI8(CDiv(x * 127, SPHERE_RADIUS)), AsI8(CDiv(y * 127, SPHERE_RADIUS)),
           AsI8(CDiv(nz * 127, SPHERE_RADIUS)), 0)
  }

  /** A coordinate of an on-sphere pixel, scaled by 127 / R, is non-zero iff the coordinate is. */
  lemma ScaledCoordinate(c: int)
    requires c * c <= SPHERE_RADIUS * SPHERE_RADIUS
    ensures -127 <= CDiv(c * 127, SPHERE_RADIUS) <= 127
    ensures CDiv(c * 127, SPHERE_RADIUS) == 0 <==> c == 0
  {
    BelowFloorSqrt(c, SPHERE_RADIUS * SPHERE_RADIUS);
    FloorSqrtOfSquare(SPHERE_RADIUS);
    ScaledComponent(c, SPHERE_RADIUS);
    assert Abs(c * 127) == Abs(c) * 127;
  }

  /**
   * On the sphere the raw normal is never the zero vector, so the division
   * by its length that follows is safe.  Its components are the scaled
   * coordinates, all within [-127, 127].
   */
  lemma RawNormalNonZero(x: int, y: int)
    requires OnSphere(x, y)
    ensures SquaredLength(RawNormal(x, y)) > 0
  {
    var r2 := SPHERE_RADIUS * SPHERE_RADIUS;
    SquareFacts(x);
    SquareFacts(y);
    var nz := FloorSqrt(r2 - (x * x + y * y));
    assert nz * nz <= r2;
    ScaledCoordinate(x);
    ScaledCoordinate(y);
    ScaledCoordinate(nz);
    var cx, cy, cz := CDiv(x * 127, SPHERE_RADIUS), CDiv(y * 127, SPHERE_RADIUS), CDiv(nz * 127, SPHERE_RADIUS);
    AsI8InRange(cx);
    AsI8InRange(cy);
    AsI8InRange(cz);
    SignedRoundTrip(cx, cy, cz, 0);
    if x == 0 && y == 0 {
      FloorSqrtOfSquare(SPHERE_RADIUS);
    }
  }

  /**
   * The renormalised surface normal of an on-sphere pixel: a direction whose
   * components, read as `int8_t`, lie in [-127, 127], with no W component.
   */
  function SurfaceNormal(x: int, y: int): (n: Word)
    requires OnSphere(x, y)
    ensures -127 <= AsI8(X(n)) <= 127 && -127 <= AsI8(Y(n)) <= 127
    ensures -127 <= AsI8(Z(n)) <= 127 && W(n) == 0
  {
    RawNormalNonZero(x, y);
    Renormalized(RawNormal(x, y))
  }

  /**
   * The 32-bit intensity of a lit pixel: dot3 of normal and light divided by
   * 127, negative values clamped to 0, mapped by 255 / 127, then raised to
   * at least KA.  There is no upper clamp: the value can exceed 255.  A
   * surface facing away from the light gets exactly the ambient floor.
   */
  function Intensity(n: Word, light: Word): (i: int)
    ensures i >= KA
    ensures Dot3(n, light) < 127 ==> i == KA
  {
    var dot := CDiv(Dot3(n, light), 127);
    var lit := if dot < 0 then 0 else dot;
    var intensity := CDiv(lit * 255, 127);
    if intensity < KA then KA else intensity
  }

  /**
   * The colour of the centred pixel (x, y): background off the disc,
   * otherwise the blend from black to the sphere colour by the intensity
   * narrowed to `uint8_t`.  A lit pixel never exceeds the sphere colour in
   * any channel and never equals the background (its Z channel is at most
   * 50, the background's is 100).
   */
  function SpherePixel(x: int, y: int, light: Word): (c: Word)
    ensures !OnSphere(x, y) ==> c == BACKGROUND_COLOR
    ensures OnSphere(x, y) ==> ChannelwiseAtMost(c, SPHERE_COLOR) && c != BACKGROUND_COLOR
  {
    if OnSphere(x, y) then
      var t := U8(Intensity(SurfaceNormal(x, y), light));
      LitColor(t)
    else
      BACKGROUND_COLOR
  }

  /** The blend from black towards the sphere colour. */
  function LitColor(t: Byte): (c: Word)
    ensures ChannelwiseAtMost(c, SPHERE_COLOR) && c != BACKGROUND_COLOR
  {
    UnpackPackU8(200, 50, 50, 0);
    UnpackPackU8(15, 15, 100, 0);
    LerpBetween(0, SPHERE_COLOR, t);
    Lerp(0, SPHERE_COLOR, t)
  }

  lemma RawNormalFromDepth(x: int, y: int, nz: int)
    requires OnSphere(x, y) && nz == FloorSqrt(SPHERE_RADIUS * SPHERE_RADIUS - (x * x + y * y))
    ensures RawNormal(x, y) == PackI8(AsI8(CDiv(x * 127, SPHERE_RADIUS)), AsI8(CDiv(y * 127, SPHERE_RADIUS)),
                                      AsI8(CDiv(nz * 127, SPHERE_RADIUS)), 0)
  {
  }

  /**
   * The surface normal as the loop body computes it: `isqrt` for the depth,
   * the scaled raw normal, then the same normalisation as the light's.
   */
  method ComputeNormal(x: int, y: int) returns (n: Word)
    requires OnSphere(x, y)
    ensures n == SurfaceNormal(x, y)
  {
    var nz := Isqrt(SPHERE_RADIUS * SPHERE_RADIUS - (x * x + y * y));
    n := PackI8(AsI8(CDiv(x * 127, SPHERE_RADIUS)), AsI8(CDiv(y * 127, SPHERE_RADIUS)),
                AsI8(CDiv(nz * 127, SPHERE_RADIUS)), 0);
    RawNormalFromDepth(x, y, nz);
    RawNormalNonZero(x, y);
    n := NormalizeDirection(n);
  }

  /** One pixel as the body of the pixel loop computes it. */
  method ShadePixel(x: int, y: int, light: Word) returns (color: Word)
    ensures color == SpherePixel(x, y, light)
  {
    var dist2 := x * x + y * y;
    if dist2 <= SPHERE_RADIUS * SPHERE_RADIUS {
      var n := ComputeNormal(x, y);
      color := Lerp(0, SPHERE_COLOR, U8(Intensity(n, light)));
    } else {
      color := BACKGROUND_COLOR;
    }
  }

  /** (x, y) is a pixel of the centred screen. */
  predicate OnScreen(x: int, y: int) {
    -WIDTH / 2 <= x < WIDTH / 2 && -HEIGHT / 2 <= y < HEIGHT / 2
  }

  /** The screen column of framebuffer slot i. */
  function Column(i: int): int { i % WIDTH - WIDTH / 2 }

  /** The screen row of framebuffer slot i. */
  function Row(i: int): int { i / WIDTH - HEIGHT / 2 }

  /**
   * The slot `(y + HEIGHT/2) * WIDTH + x + WIDTH/2` of pixel (x, y): inside
   * the framebuffer, and it gives back x and y, so no two pixels share a
   * slot.
   */
  function SphereIndex(x: int, y: int): (i: int)
    requires OnScreen(x, y)
    ensures 0 <= i < WIDTH * HEIGHT
    ensures Column(i) == x && Row(i) == y
  {
    (y + HEIGHT / 2) * WIDTH + x + WIDTH / 2
  }

  /** Every slot of the framebuffer is the slot of some pixel. */
  lemma EverySlotHasPixel(i: int)
    requires 0 <= i < WIDTH * HEIGHT
    ensures OnScreen(Column(i), Row(i)) && SphereIndex(Column(i), Row(i)) == i
  {
  }

  /** Slot i has been written once the x loop passed its column, or reached its row in the current column. */
  predicate Visited(i: int, x: int, y: int) {
    Column(i) < x || (Column(i) == x && Row(i) < y)
  }

  /**
   * `main` of rasterizer_ilum.c without the image output: normalise the
   * light, then for x (outer) and y (inner) over the centred screen store
   * the pixel's colour in its slot.  Every slot ends up holding the colour
   * of its pixel, and `writes`, the number of stores per slot, is 1
   * everywhere: each slot is written exactly once.
   */
  method RenderSphere(buffer: array<Word>) returns (ghost writes: seq<int>)
    requires buffer.Length == WIDTH * HEIGHT
    modifies buffer
    ensures |writes| == buffer.Length && forall i :: 0 <= i < buffer.Length ==> writes[i] == 1
    ensures forall i :: 0 <= i < buffer.Length ==>
      buffer[i] == SpherePixel(Column(i), Row(i), LIGHT)
  {
    var light := NormalizedLight();
    writes := seq(buffer.Length, _ => 0);
    for x := -WIDTH / 2 to WIDTH / 2
      invariant |writes| == buffer.Length
      invariant forall i :: 0 <= i < buffer.Length ==> writes[i] == if Column(i) < x then 1 else 0
      invariant forall i :: 0 <= i < buffer.Length && Column(i) < x ==>
        buffer[i] == SpherePixel(Column(i), Row(i), light)
    {
      forall i | 0 <= i < buffer.Length
        ensures Visited(i, x, -HEIGHT / 2) == (Column(i) < x)
      {
        EverySlotHasPixel(i);
      }
      for y := -HEIGHT / 2 to HEIGHT / 2
        invariant |writes| == buffer.Length
        invariant forall i :: 0 <= i < buffer.Length ==> writes[i] == if Visited(i, x, y) then 1 else 0
        invariant forall i :: 0 <= i < buffer.Length && Visited(i, x, y) ==>
          buffer[i] == SpherePixel(Column(i), Row(i), light)
      {
        var color := ShadePixel(x, y, light);
        var k := SphereIndex(x, y);
        buffer[k] := color;
        writes := writes[k := writes[k] + 1];
        forall i | 0 <= i < buffer.Length && i != k
          ensures Visited(i, x, y + 1) == Visited(i, x, y)
        {
          EverySlotHasPixel(i);
        }
      }
      forall i | 0 <= i < buffer.Length
        ensures Visited(i, x, HEIGHT / 2) == (Column(i) < x + 1)
      {
        EverySlotHasPixel(i);
      }
    }
  }

  /** The normalised light that the configured direction produces. */
  const LIGHT: Word := PackI8(57, -5, 115, 0)

  /** The intensity with the evidently intended upper clamp at 255. */
  function ClampedIntensity(n: Word, light: Word): (t: Byte)
    ensures KA <= t
    ensures Intensity(n, light) <= 255 ==> t == Intensity(n, light)
  {
    var i := Intensity(n, light);
    if i > 255 then 255 else i
  }

  /**
   * The pixel colour with the intensity clamped to [KA, 255]: every lit
   * pixel is at least as bright, channel by channel, as the ambient colour
   * lerp(0, SPHERE_COLOR, KA) and at most the sphere colour.
   */
  function ClampedSpherePixel(x: int, y: int, light: Word): (c: Word)
    ensures !OnSphere(x, y) ==> c == BACKGROUND_COLOR
    ensures OnSphere(x, y) ==> ChannelwiseAtMost(LitColor(KA), c) && ChannelwiseAtMost(c, SPHERE_COLOR)
  {
    if OnSphere(x, y) then
      var t := ClampedIntensity(SurfaceNormal(x, y), light);
      LitColorMonotonic(KA, t);
      LitColor(t)
    else
      BACKGROUND_COLOR
  }

  /** A larger blend factor never darkens a channel of the lit colour. */
  lemma LitColorMonotonic(s: Byte, t: Byte)
    requires s <= t
    ensures ChannelwiseAtMost(LitColor(s), LitColor(t))
  {
    LitColorChannels(s);
    LitColorChannels(t);
    ScaledMonotonic(s, t, 200);
    ScaledMonotonic(s, t, 50);
  }

  /** The channels of the lit colour: the sphere colour's channels scaled by t / 255. */
  lemma LitColorChannels(t: Byte)
    ensures X(LitColor(t)) == t * 200 / 255 && Y(LitColor(t)) == t * 50 / 255
    ensures Z(LitColor(t)) == t * 50 / 255 && W(LitColor(t)) == 0
  {
    assert X(SPHERE_COLOR) == 200 && Y(SPHERE_COLOR) == 50 && Z(SPHERE_COLOR) == 50 && W(SPHERE_COLOR) == 0 by {
      UnpackPackU8(200, 50, 50, 0);
    }
    assert X(0) == 0 && Y(0) == 0 && Z(0) == 0 && W(0) == 0;
    var c := LitColor(t);
    assert X(c) == LerpChannel(0, 200, t) && Y(c) == LerpChannel(0, 50, t);
    assert Z(c) == LerpChannel(0, 50, t) && W(c) == LerpChannel(0, 0, t);
  }

  lemma ScaledMonotonic(s: Byte, t: Byte, d: Byte)
    requires s <= t
    ensures s * d / 255 <= t * d / 255
  {
    MultiplyMonotonic(d, s, t);
  }

  /** The clamp only changes pixels whose intensity overflows a byte. */
  lemma ClampAgrees(x: int, y: int, light: Word)
    requires OnSphere(x, y) ==> Intensity(SurfaceNormal(x, y), light) <= 255
    ensures ClampedSpherePixel(x, y, light) == SpherePixel(x, y, light)
  {
    if OnSphere(x, y) {
      var n := SurfaceNormal(x, y);
      var i := Intensity(n, light);
      assert ClampedIntensity(n, light) == i;
      U8OfByte(i);
    }
  }
}
