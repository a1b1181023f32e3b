# Integer rasterizer: packed colours, lit sphere, colour-interpolated triangle

This project models the core of a small integer-only renderer written in C
for an embedded RISC-V target. The renderer has three parts:

- **Packed 4 x 8-bit words** (`vec.h`). A colour, a pixel position or a
  signed direction lives in one 32-bit `unsigned int`, with channel X in
  the most significant byte. There are accessors `VEC4_X/Y/Z/W`, the
  unsigned packer `VEC4_U8` and the masking signed packer `VEC4_I8`.
- **Integer primitives**:
  - `isqrt`, the integer square root by Newton's iteration;
  - `lerp_vec4_u8`, a channel-wise blend of two packed colours by a factor
    `t`;
  - `dot3`, the dot product of the X, Y, Z channels read as `int8_t`.

  `lerp_vec4_u8` and `dot3` are the points where the hardware build
  substitutes custom instructions. They are modelled by their plain-C
  bodies, which any accelerated version must reproduce.
- **Two renderers** that fill a 256 x 256 framebuffer:
  - the lit sphere of `rasterizer_ilum.c`: disc test, depth by `isqrt`,
    surface normal scaled so that 127 means one, renormalisation, a
    diffuse term against a normalised light, an ambient floor `KA`, and a
    blend from black to the sphere colour;
  - the triangle of `rasterizer_lerp.c`: edge functions `w0`, `w1` and
    `w2 = denom - w0 - w1`, a sign-based coverage test, and two nested
    lerps of the three vertex colours.

## How the C semantics are modelled

- **Words and bytes.** A word is an integer in [0, 2^32) and a channel an
  integer in [0, 256).
  - A logical right shift is a division.
  - `& 0xFF` is `% 256`.
  - The `|` of bytes shifted into disjoint positions is their sum.
  - The packers shift `int` operands. For a byte of 128 or more,
    `<< 24` overflows `int`, which ISO C leaves undefined (C11 section
    6.5.7, paragraph 4). GCC defines it as the two's-complement bit
    pattern, which, stored in the unsigned word, is again the weighted sum.
    The model takes GCC's result.

  That a channel is always in [0, 255] is carried by the result type
  `Byte` of the accessors.
- **C conversions.** Module `CInt` writes out:
  - conversion to `unsigned int` (`U32`, modulo 2^32);
  - conversion to `int32_t` (`I32`, two's complement);
  - narrowing to `uint8_t` (`U8`);
  - C's truncating signed division (`CDiv`; Dafny's own `/` is Euclidean).
- **Unsigned expressions.** The accessors return `unsigned int`, so:
  - the channel differences inside `lerp_vec4_u8` are computed modulo 2^32;
  - `denom`, `w0` and `w1` are unsigned expressions stored in `int32_t`.

  The model evaluates these expressions exactly that way. It then proves
  that for the weights nothing is lost: each weight is the ordinary edge
  function. For `lerp` a decreasing channel (b < a, t >= 1) comes out one
  too high, modulo 256, exactly when `t*(a-b)` leaves a remainder of 0 or 1
  modulo 255; otherwise it equals the signed blend (see Findings).
- **The framebuffer** is an `array<Word>` that the render methods fill in
  place. Each render method also returns a ghost count of the stores made
  to each slot, and proves that the count is 1 everywhere.
- **Where the code differs from what it evidently intends** (the model
  follows the code):
  - The blend `a + t * (b - a) / 255` of `lerp_vec4_u8` is computed in
    32-bit unsigned arithmetic. So `lerp(a, b, 255) == b` holds exactly
    where no channel of `b` is below `a`'s; a channel that falls stops one
    above its target.
  - The intensity is commented "mapear para [0,255]"
    (`rasterizer_ilum.c`, line 124), but it is only clamped from below, so
    it is not kept within [0, 255] when it is passed to `lerp`.
- **Degenerate triangles.** A triangle with `denom == 0` does not divide by
  zero. The coverage test fails for every pixel, so the divisions are never
  reached.

## Model

| member | source | states |
|---|---|---|
| `CInt.U32` | riscv-app-gen/rasterizer/rasterizer_ilum.c:68-71 | conversion to `unsigned int` yields a value in [0, 2^32) congruent to its input modulo 2^32 |
| `CInt.I32` | riscv-app-gen/rasterizer/rasterizer_lerp.c:94 | storing a 32-bit pattern in `int32_t` yields a value in the `int32_t` range congruent to it modulo 2^32 |
| `CInt.U8` | riscv-app-gen/rasterizer/rasterizer_ilum.c:68-71 | narrowing to `uint8_t` yields a byte congruent to its input modulo 256 |
| `CInt.CDiv` | riscv-app-gen/rasterizer/rasterizer_ilum.c:115 | C division: the magnitude of the quotient is the floor of abs(a) / abs(b), and the quotient is negative only when the operand signs differ (truncation toward zero) |
| `CInt.CDivOfNatural` | riscv-app-gen/rasterizer/rasterizer_ilum.c:124 | for non-negative operands C division agrees with floor division |
| `CInt.CDivNegated` | riscv-app-gen/rasterizer/rasterizer_ilum.c:115 | truncation is symmetric: (-a) / b is -(a / b) |
| `CInt.CDivBothNegated` | riscv-app-gen/rasterizer/rasterizer_lerp.c:106-107 | negating both dividend and divisor leaves the truncated quotient unchanged |
| `CInt.CDivExact` | riscv-app-gen/rasterizer/rasterizer_lerp.c:106-107 | an exact multiple divides back to its factor, for either sign of the divisor |
| `CInt.U32OfSum` | riscv-app-gen/rasterizer/rasterizer_lerp.c:94 | unsigned addition is addition modulo 2^32 |
| `CInt.U32OfProduct` | riscv-app-gen/rasterizer/rasterizer_lerp.c:94 | unsigned multiplication is multiplication modulo 2^32 |
| `CInt.UnsignedSumOfProductsExact` | riscv-app-gen/rasterizer/rasterizer_lerp.c:94 | p*q + r*s on values in [-255, 255], evaluated in `unsigned int` and stored in `int32_t`, equals the exact integer result |
| `Vec.X` | riscv-app-gen/rasterizer/vec.h:4 | `VEC4_X`: the top byte of the word (word shifted right by 24); its result type `Byte` states that it lies in [0, 255]. No contract of its own: `Vec.UnpackPackU8` and `Vec.ChannelsDetermineWord` state what the four accessors together mean |
| `Vec.Y` | riscv-app-gen/rasterizer/vec.h:5 | `VEC4_Y`: bits 23..16 of the word, a `Byte`; no contract of its own (see `Vec.UnpackPackU8`) |
| `Vec.Z` | riscv-app-gen/rasterizer/vec.h:6 | `VEC4_Z`: bits 15..8 of the word, a `Byte`; no contract of its own (see `Vec.UnpackPackU8`) |
| `Vec.W` | riscv-app-gen/rasterizer/vec.h:7 | `VEC4_W`: the low byte of the word, a `Byte`; no contract of its own (see `Vec.UnpackPackU8`) |
| `Vec.PackU8` | riscv-app-gen/rasterizer/vec.h:10 | `VEC4_U8` of four bytes: the 32-bit word with x in the top byte down to w in the low byte (GCC's result for the overflowing `int` shift, see Left out). No contract of its own: `Vec.UnpackPackU8` and `Vec.Repack` make it the inverse of the accessors |
| `Vec.PackI8` | riscv-app-gen/rasterizer/vec.h:8-9 | `VEC4_I8`: each `int` component masked to its low byte, then packed as `VEC4_U8`. No contract of its own: `Vec.UnpackPackI8` and `Vec.SignedRoundTrip` state that each channel read back as `int8_t` is its component |
| `Vec.AsI8` | riscv-app-gen/rasterizer/rasterizer_ilum.c:86 | the `(int8_t)` cast yields the value in [-128, 127] congruent to its input modulo 256 |
| `Vec.UnpackPackU8` | riscv-app-gen/rasterizer/vec.h:4-10 | each accessor applied to `VEC4_U8(x, y, z, w)` returns its own channel, for channels in [0, 255] |
| `Vec.Repack` | riscv-app-gen/rasterizer/vec.h:4-10 | repacking the four extracted channels of any 32-bit word gives the word back |
| `Vec.ChannelsDetermineWord` | riscv-app-gen/rasterizer/vec.h:4-7 | two words with equal X, Y, Z and W channels are equal |
| `Vec.UnpackPackI8` | riscv-app-gen/rasterizer/vec.h:8-9 | each channel of `VEC4_I8(x, y, z, w)` is the low byte of its own component, for any integers (negative neighbours do not spill) |
| `Vec.SignedRoundTrip` | riscv-app-gen/rasterizer/vec.h:9 | components in [-128, 127] survive `VEC4_I8` followed by the accessor and the `(int8_t)` cast |
| `Vec.SignedPackOfBytes` | riscv-app-gen/rasterizer/vec.h:9-10 | on components in [0, 255] `VEC4_I8` and `VEC4_U8` produce the same word |
| `IntSqrt.FloorSqrt` | riscv-app-gen/rasterizer/rasterizer_ilum.c:58-64 | the reference root: 0 for n <= 0, otherwise r with r*r <= n < (r+1)*(r+1) |
| `IntSqrt.FloorSqrtUnique` | riscv-app-gen/rasterizer/rasterizer_ilum.c:58-64 | any r bracketing n between r*r and (r+1)*(r+1) is the root |
| `IntSqrt.FloorSqrtOfSquare` | riscv-app-gen/rasterizer/rasterizer_ilum.c:58-64 | isqrt(k*k) == k |
| `IntSqrt.BelowFloorSqrt` | riscv-app-gen/rasterizer/rasterizer_ilum.c:103-105 | a component whose square is at most n has magnitude at most isqrt(n) |
| `IntSqrt.NewtonStepAboveRoot` | riscv-app-gen/rasterizer/rasterizer_ilum.c:62 | a Newton step (x + n/x) >> 1 from any x >= 1 never falls below the root |
| `IntSqrt.NewtonStopBelowRoot` | riscv-app-gen/rasterizer/rasterizer_ilum.c:62 | when the next estimate is not smaller than x, x is at most the root |
| `IntSqrt.NewtonSumBound` | riscv-app-gen/rasterizer/rasterizer_ilum.c:62 | for 1 <= x <= n the sum x + n/x is at most n + 1, so it fits in `int32_t` |
| `IntSqrt.Isqrt` | riscv-app-gen/rasterizer/rasterizer_ilum.c:58-64 | the Newton loop returns exactly the floor square root (0 for n <= 0); x decreases strictly and stays >= 1, so the loop terminates and never divides by zero |
| `Primitives.LerpChannel` | riscv-app-gen/rasterizer/rasterizer_ilum.c:68-71 | one channel of the blend: t = 0 gives a; when b >= a the result is a + t*(b-a)/255, lies in [a, b] and t = 255 gives b |
| `Primitives.UnsignedBlendNoWrap` | riscv-app-gen/rasterizer/rasterizer_ilum.c:68-71 | when b >= a the unsigned evaluation and the `uint8_t` store lose nothing |
| `Primitives.Lerp` | riscv-app-gen/rasterizer/rasterizer_ilum.c:66-72 | each channel of the blended word is the channel blend of the matching channels, independently of the others |
| `Primitives.LerpOfPacks` | riscv-app-gen/rasterizer/rasterizer_lerp.c:53-57 | the blend of two packed colours is the pack of the four channel blends |
| `Primitives.LerpAtZero` | riscv-app-gen/rasterizer/rasterizer_lerp.c:53-57 | lerp(a, b, 0) == a for every pair of words |
| `Primitives.LerpBetween` | riscv-app-gen/rasterizer/rasterizer_ilum.c:68-72 | when b dominates a channel by channel, the blend lies between a and b in every channel and t = 255 gives b |
| `Primitives.LerpChannelWrapsDownward` | riscv-app-gen/rasterizer/rasterizer_ilum.c:68 | as written, 255 blended towards 0 at t = 255 gives 1, and 255 towards 254 at t = 1 gives 0 (outside [254, 255]) |
| `Primitives.LerpChannelBelow` | riscv-app-gen/rasterizer/rasterizer_ilum.c:68-71 | as written, a falling channel (b < a) blended with t >= 1 is the signed blend plus one, modulo 256, when `t*(a-b) % 255` is 0 or 1, and exactly the signed blend otherwise |
| `Primitives.LerpChannelFullBelow` | riscv-app-gen/rasterizer/rasterizer_ilum.c:68-71 | as written, a falling channel blended with t = 255 stops at b + 1, never at b |
| `Primitives.LerpReachesTarget` | riscv-app-gen/rasterizer/rasterizer_lerp.c:53-57 | `lerp(a, b, 255) == b` if and only if no channel of b is below the matching channel of a |
| `Primitives.SignedLerpChannel` | riscv-app-gen/rasterizer/rasterizer_ilum.c:68-71 | the corrected channel blend in signed arithmetic: t = 0 gives a, t = 255 gives b, and the result lies between a and b in either order |
| `Primitives.SignedLerpAgrees` | riscv-app-gen/rasterizer/rasterizer_ilum.c:68-71 | where b >= a the blend as written and the corrected blend agree |
| `Primitives.SignedLerp` | riscv-app-gen/rasterizer/rasterizer_ilum.c:66-72 | the corrected word blend: each channel is the corrected channel blend |
| `Primitives.SignedLerpOfPacks` | riscv-app-gen/rasterizer/rasterizer_lerp.c:53-57 | the corrected blend of two packed colours is the pack of the four corrected channel blends |
| `Primitives.SignedLerpEndpoints` | riscv-app-gen/rasterizer/rasterizer_ilum.c:66-72 | the corrected blend gives a at t = 0 and b at t = 255 for every pair of words |
| `Primitives.Dot3` | riscv-app-gen/rasterizer/rasterizer_ilum.c:84-96 | dot3 of two words is bounded by 3 * 128 * 128 in magnitude, so it fits in `int32_t` |
| `Primitives.Dot3Symmetric` | riscv-app-gen/rasterizer/rasterizer_ilum.c:86 | dot3(a, b) == dot3(b, a) |
| `Primitives.Dot3IgnoresW` | riscv-app-gen/rasterizer/rasterizer_ilum.c:86 | replacing the W channel of either argument does not change dot3 |
| `Primitives.Dot3OfSignedPacks` | riscv-app-gen/rasterizer/rasterizer_ilum.c:86 | on signed packs of `int8_t` components dot3 is the ordinary dot product of the components |
| `Sphere.SquaredLength` | riscv-app-gen/rasterizer/rasterizer_ilum.c:103 | the squared length of a signed direction is in [0, 3 * 16384], and zero exactly when all three components are zero |
| `Sphere.ScaledComponent` | riscv-app-gen/rasterizer/rasterizer_ilum.c:105 | a component no longer than the length, times 127 and divided by the length, lies in [-127, 127] |
| `Sphere.ComponentsScale` | riscv-app-gen/rasterizer/rasterizer_ilum.c:103-105 | for a non-zero direction the root of its squared length is at least 1, and every rescaled component lies in [-127, 127] |
| `Sphere.Renormalized` | riscv-app-gen/rasterizer/rasterizer_ilum.c:116-119 | the renormalised direction has every component in [-127, 127] and W = 0 |
| `Sphere.NormalizeDirection` | riscv-app-gen/rasterizer/rasterizer_ilum.c:103-105 | the normalisation steps (squared length, `isqrt`, three truncating divisions) compute the renormalised direction |
| `Sphere.LightNormalized` | riscv-app-gen/rasterizer/rasterizer_ilum.c:101-105 | the configured light (10, -1, 20) has squared length 501 and normalises to (57, -5, 115) |
| `Sphere.LightLength` | riscv-app-gen/rasterizer/rasterizer_ilum.c:104 | isqrt(501) == 22 |
| `Sphere.NormalizedLight` | riscv-app-gen/rasterizer/rasterizer_ilum.c:101-105 | the light computed once before the loops is LIGHT = (57, -5, 115) with W = 0 |
| `Sphere.OnSphere` | riscv-app-gen/rasterizer/rasterizer_ilum.c:110-111 | the disc test `x*x + y*y <= R*R` on the centred coordinates; a predicate with no contract of its own |
| `Sphere.RawNormal` | riscv-app-gen/rasterizer/rasterizer_ilum.c:113-115 | the unnormalised normal: depth `isqrt(R*R - dist2)`, each of x, y, depth scaled by 127 / R with C division and `(int8_t)`, packed by `VEC4_I8`. No contract of its own: `Sphere.RawNormalNonZero` states that it is never the zero vector |
| `Sphere.SurfaceNormal` | riscv-app-gen/rasterizer/rasterizer_ilum.c:113-119 | the renormalised normal of an on-sphere pixel: every component read as `int8_t` lies in [-127, 127] and W is 0 |
| `Sphere.ScaledCoordinate` | riscv-app-gen/rasterizer/rasterizer_ilum.c:115 | an on-disc coordinate scaled by 127/80 lies in [-127, 127] and is zero only for coordinate 0 |
| `Sphere.RawNormalNonZero` | riscv-app-gen/rasterizer/rasterizer_ilum.c:111-119 | at every on-sphere pixel the raw normal has non-zero squared length, so `n_len > 0` and the division at line 119 is safe |
| `Sphere.Intensity` | riscv-app-gen/rasterizer/rasterizer_ilum.c:122-125 | the 32-bit intensity is at least KA, and exactly KA when the surface faces away from the light (dot3 < 127); there is no upper bound |
| `Sphere.SpherePixel` | riscv-app-gen/rasterizer/rasterizer_ilum.c:110-136 | off-disc pixels get the background colour; on-disc pixels get a colour no brighter than the sphere colour in any channel and never the background |
| `Sphere.LitColor` | riscv-app-gen/rasterizer/rasterizer_ilum.c:126 | the blend from black towards the sphere colour never exceeds the sphere colour in any channel and is never the background |
| `Sphere.ComputeNormal` | riscv-app-gen/rasterizer/rasterizer_ilum.c:113-119 | the loop body's depth, raw normal and renormalisation compute the surface normal |
| `Sphere.ShadePixel` | riscv-app-gen/rasterizer/rasterizer_ilum.c:110-136 | one iteration of the pixel loop computes the pixel's colour |
| `Sphere.SphereIndex` | riscv-app-gen/rasterizer/rasterizer_ilum.c:127 | the slot `(y+128)*256 + x + 128` of a screen pixel lies in the framebuffer and gives back x and y, so no two pixels share a slot |
| `Sphere.EverySlotHasPixel` | riscv-app-gen/rasterizer/rasterizer_ilum.c:108-109 | every framebuffer slot is the slot of one pixel of the centred screen |
| `Sphere.RenderSphere` | riscv-app-gen/rasterizer/rasterizer_ilum.c:98-139 | after the x-outer, y-inner loops every slot holds its pixel's colour and was written exactly once |
| `Sphere.ClampedIntensity` | riscv-app-gen/rasterizer/rasterizer_ilum.c:122-126 | the corrected intensity is a byte of at least KA and equals the intensity whenever that fits in a byte |
| `Sphere.ClampedSpherePixel` | riscv-app-gen/rasterizer/rasterizer_ilum.c:122-127 | with the clamp every on-disc pixel lies between the ambient colour and the sphere colour in every channel |
| `Sphere.LitColorMonotonic` | riscv-app-gen/rasterizer/rasterizer_ilum.c:126 | a larger blend factor never darkens a channel of the lit colour |
| `Sphere.LitColorChannels` | riscv-app-gen/rasterizer/rasterizer_ilum.c:126 | the lit colour's channels are the sphere colour's channels scaled by t/255 |
| `Sphere.ClampAgrees` | riscv-app-gen/rasterizer/rasterizer_ilum.c:122-126 | the clamp changes only pixels whose intensity exceeds 255 |
| `SphereExamples.CentreNormal` | riscv-app-gen/rasterizer/rasterizer_ilum.c:113-119 | the normal at the centre of the disc is (0, 0, 127) |
| `SphereExamples.CentrePixel` | riscv-app-gen/rasterizer/rasterizer_ilum.c:110-125 | pixel (0, 0) is on the sphere with intensity 230, at least KA |
| `SphereExamples.CentreIntensity` | riscv-app-gen/rasterizer/rasterizer_ilum.c:122-125 | the normal (0, 0, 127) under LIGHT has intensity 230 |
| `SphereExamples.CentreColor` | riscv-app-gen/rasterizer/rasterizer_ilum.c:126 | pixel (0, 0) gets (180, 45, 45), strictly between black and the sphere colour |
| `SphereExamples.CentreLit` | riscv-app-gen/rasterizer/rasterizer_ilum.c:126 | the blend factor 230 gives (180, 45, 45) |
| `SphereExamples.HighlightRawNormal` | riscv-app-gen/rasterizer/rasterizer_ilum.c:113-115 | pixel (35, -3) is on the sphere with depth 71 and raw normal (55, -4, 112) |
| `SphereExamples.HighlightRenormalized` | riscv-app-gen/rasterizer/rasterizer_ilum.c:116-119 | (55, -4, 112) has squared length 15585 and renormalises to (56, -4, 114) |
| `SphereExamples.HighlightNormal` | riscv-app-gen/rasterizer/rasterizer_ilum.c:113-119 | the surface normal at (35, -3) is (56, -4, 114) |
| `SphereExamples.HighlightNormalIntensity` | riscv-app-gen/rasterizer/rasterizer_ilum.c:122-124 | (56, -4, 114) under LIGHT has dot3 16322 and intensity 257 |
| `SphereExamples.HighlightIntensity` | riscv-app-gen/rasterizer/rasterizer_ilum.c:122-125 | the 32-bit intensity at pixel (35, -3) is 257, past the top of a byte |
| `SphereExamples.HighlightPixelWraps` | riscv-app-gen/rasterizer/rasterizer_ilum.c:122-127 | as written, pixel (35, -3) in the bright part of the sphere comes out black |
| `SphereExamples.DarkestLit` | riscv-app-gen/rasterizer/rasterizer_ilum.c:126 | the blend factor 1 gives black |
| `SphereExamples.HighlightPixelClamped` | riscv-app-gen/rasterizer/rasterizer_ilum.c:122-127 | with the clamp, pixel (35, -3) gets the full sphere colour |
| `Triangle.EdgeFromOtherEnd` | riscv-app-gen/rasterizer/rasterizer_lerp.c:99 | an edge function has the same value whichever end of the edge it is measured from |
| `Triangle.EdgeAntisymmetric` | riscv-app-gen/rasterizer/rasterizer_lerp.c:98-99 | reversing an edge negates its edge function |
| `Triangle.EdgeSum` | riscv-app-gen/rasterizer/rasterizer_lerp.c:94-100 | at any point the three edge functions add up to twice the signed area of the triangle |
| `Triangle.UnsignedSumOfProducts` | riscv-app-gen/rasterizer/rasterizer_lerp.c:94 | `p*q + r*s` with every conversion, product and sum in `unsigned int`. No contract of its own: `CInt.UnsignedSumOfProductsExact` states that, for operands that are differences of bytes, the 32 bits stored in `int32_t` are exactly `p*q + r*s` |
| `Triangle.Denom` | riscv-app-gen/rasterizer/rasterizer_lerp.c:94 | `denom`, evaluated in unsigned arithmetic and stored in `int32_t`, is exactly twice the signed area of the triangle |
| `Triangle.Weight0` | riscv-app-gen/rasterizer/rasterizer_lerp.c:98 | `w0` is exactly the edge function of v1 -> v2 at the pixel |
| `Triangle.Weight1` | riscv-app-gen/rasterizer/rasterizer_lerp.c:99 | `w1` is exactly the edge function of v2 -> v0 at the pixel |
| `Triangle.Weight2` | riscv-app-gen/rasterizer/rasterizer_lerp.c:100 | `w2 = denom - w0 - w1` is exactly the edge function of v0 -> v1 at the pixel, so the three weights sum to `denom` |
| `Triangle.Inside` | riscv-app-gen/rasterizer/rasterizer_lerp.c:102-103 | the coverage test: `denom` positive and all three weights non-negative, or `denom` negative and all three non-positive; a predicate with no contract of its own |
| `Triangle.Covered` | riscv-app-gen/rasterizer/rasterizer_lerp.c:98-103 | the coverage test applied to the weights of pixel (x, y); no contract of its own: `Triangle.CoverageIgnoresWinding` states that it does not depend on the winding |
| `Triangle.BlendFactor` | riscv-app-gen/rasterizer/rasterizer_lerp.c:106-107 | `(w * 255) / denom` with C division, narrowed to `uint8_t`. No contract of its own: `Triangle.InsideBlendFactors` states that for a covered pixel no narrowing happens |
| `Triangle.BlendedColor` | riscv-app-gen/rasterizer/rasterizer_lerp.c:108-109 | the nested blend: c0 towards c1 by t1, then towards c2 by t2; no contract of its own |
| `Triangle.TrianglePixel` | riscv-app-gen/rasterizer/rasterizer_lerp.c:98-114 | the colour `main` stores at (x, y); a pixel failing the coverage test gets the background colour, and a degenerate triangle (`denom == 0`) leaves every pixel at the background colour, never reaching a division by zero |
| `Triangle.EdgeVanishesAtEnds` | riscv-app-gen/rasterizer/rasterizer_lerp.c:98-100 | an edge function is zero at both ends of its edge |
| `Triangle.VertexWeights` | riscv-app-gen/rasterizer/rasterizer_lerp.c:98-103 | for a non-degenerate triangle each vertex has its own weight equal to `denom` and the other two zero, so every vertex is covered |
| `Triangle.InsideBlendFactors` | riscv-app-gen/rasterizer/rasterizer_lerp.c:102-107 | inside the triangle `t1` and `t2` lie in [0, 255], sum to at most 255, and the `uint8_t` stores lose nothing |
| `Triangle.PositiveFactors` | riscv-app-gen/rasterizer/rasterizer_lerp.c:106-107 | for non-negative weights summing to at most e, the floors of w*255/e are non-negative and sum to at most 255 |
| `Triangle.ExtremeBlendFactors` | riscv-app-gen/rasterizer/rasterizer_lerp.c:106-107 | a weight equal to `denom` gives factor 255 and a zero weight factor 0, for either sign of `denom` |
| `Triangle.VertexZeroColor` | riscv-app-gen/rasterizer/rasterizer_lerp.c:98-110 | vertex v0 of a non-degenerate triangle renders exactly c0 |
| `Triangle.VertexOneColor` | riscv-app-gen/rasterizer/rasterizer_lerp.c:98-110 | vertex v1 renders lerp(c0, c1, 255), which is c1 when no channel of c1 is below c0's |
| `Triangle.VertexTwoColor` | riscv-app-gen/rasterizer/rasterizer_lerp.c:98-110 | vertex v2 renders lerp(c0, c2, 255), which is c2 when no channel of c2 is below c0's |
| `Triangle.FirstEdgeColor` | riscv-app-gen/rasterizer/rasterizer_lerp.c:100-110 | a covered pixel on the edge v0 -> v1 (w2 = 0) renders lerp(c0, c1, t1): the second blend changes nothing |
| `Triangle.FirstEdgeNoBlue` | riscv-app-gen/rasterizer/rasterizer_lerp.c:100-110 | a covered pixel with w2 == 0 has an empty Z channel when neither c0 nor c1 has one |
| `Triangle.CoverageIgnoresWinding` | riscv-app-gen/rasterizer/rasterizer_lerp.c:102-103 | exchanging v1 and v2 (the other winding) covers exactly the same pixels |
| `Triangle.CorrectedPixel` | riscv-app-gen/rasterizer/rasterizer_lerp.c:98-114 | the pixel colour with the signed lerp in place of the unsigned one; an uncovered pixel gets the background colour, and a degenerate triangle again leaves the background colour |
| `Triangle.CorrectedVertexColors` | riscv-app-gen/rasterizer/rasterizer_lerp.c:106-110 | with the corrected blend every vertex of a non-degenerate triangle renders exactly its own colour |
| `Triangle.NestedBlendBetween` | riscv-app-gen/rasterizer/rasterizer_lerp.c:108-109 | two nested corrected channel blends stay between the least and the greatest of the three inputs |
| `Triangle.CorrectedWithinVertexColors` | riscv-app-gen/rasterizer/rasterizer_lerp.c:102-110 | with the corrected blend no covered pixel leaves the channel range spanned by the vertex colours |
| `Triangle.ShadeTrianglePixel` | riscv-app-gen/rasterizer/rasterizer_lerp.c:98-113 | one iteration of the pixel loop computes the pixel's colour: the nested blend when covered, the background otherwise; no division by a zero `denom` is reached |
| `Triangle.PixelIndex` | riscv-app-gen/rasterizer/rasterizer_lerp.c:110 | the slot `y*256 + x` of a pixel lies in row y of the framebuffer and gives back x and y |
| `Triangle.EverySlotHasPixel` | riscv-app-gen/rasterizer/rasterizer_lerp.c:95-96 | every framebuffer slot is the slot of one pixel |
| `Triangle.TrianglePicture` | riscv-app-gen/rasterizer/rasterizer_lerp.c:95-113 | every triangle has a picture: a framebuffer-sized sequence holding each pixel's colour at its slot |
| `Triangle.DrawPixel` | riscv-app-gen/rasterizer/rasterizer_lerp.c:98-113 | storing one pixel puts the pixel's colour in its slot and changes no other slot |
| `Triangle.RenderTriangle` | riscv-app-gen/rasterizer/rasterizer_lerp.c:85-116 | after the y-outer, x-inner loops the framebuffer shows the triangle and every slot was written exactly once |
| `TriangleExamples.ScenePositions` | riscv-app-gen/rasterizer/rasterizer_lerp.c:86-88 | the scene's vertices are (25, 230), (230, 230) and (127, 25) |
| `TriangleExamples.RedVertexPosition` | riscv-app-gen/rasterizer/rasterizer_lerp.c:86 | v0 is at (25, 230) |
| `TriangleExamples.GreenVertexPosition` | riscv-app-gen/rasterizer/rasterizer_lerp.c:88 | v1 is at (230, 230) |
| `TriangleExamples.BlueVertexPosition` | riscv-app-gen/rasterizer/rasterizer_lerp.c:87 | v2 is at (127, 25) |
| `TriangleExamples.SceneDenom` | riscv-app-gen/rasterizer/rasterizer_lerp.c:94 | for the configured vertices `denom == -42025` |
| `TriangleExamples.SceneRedVertex` | riscv-app-gen/rasterizer/rasterizer_lerp.c:86-110 | the red vertex (25, 230) renders exactly red |
| `TriangleExamples.SceneGreenVertex` | riscv-app-gen/rasterizer/rasterizer_lerp.c:88-110 | as written, the green vertex renders (1, 255, 0), not green |
| `TriangleExamples.RedTowardsGreen` | riscv-app-gen/rasterizer/rasterizer_lerp.c:53-57 | as written, red blended all the way towards green is (1, 255, 0) |
| `TriangleExamples.SceneBlueVertex` | riscv-app-gen/rasterizer/rasterizer_lerp.c:87-110 | as written, the blue vertex renders (1, 0, 255), not blue |
| `TriangleExamples.RedTowardsBlue` | riscv-app-gen/rasterizer/rasterizer_lerp.c:53-57 | as written, red blended all the way towards blue is (1, 0, 255) |
| `TriangleExamples.SceneCorrectedVertices` | riscv-app-gen/rasterizer/rasterizer_lerp.c:86-110 | with the corrected blend the green and blue vertices render exactly green and blue |
| `TriangleExamples.BottomEdgeEdges` | riscv-app-gen/rasterizer/rasterizer_lerp.c:98-100 | pixel (127, 230) has weights (-21115, -20910, 0) |
| `TriangleExamples.BottomEdgeWeights` | riscv-app-gen/rasterizer/rasterizer_lerp.c:102-107 | pixel (127, 230) is covered with blend factors 126 and 0 (C's truncation gives 126 where Dafny's Euclidean `/` would give 127) |
| `TriangleExamples.SceneBottomEdge` | riscv-app-gen/rasterizer/rasterizer_lerp.c:106-110 | as written, pixel (127, 230) on the bottom edge renders (130, 126, 0), with blue channel 0 |
| `TriangleExamples.BottomEdgeCoverage` | riscv-app-gen/rasterizer/rasterizer_lerp.c:98-103 | every pixel (x, 230) with 25 <= x <= 230 is covered and has w2 == 0 |
| `TriangleExamples.BottomEdge` | riscv-app-gen/rasterizer/rasterizer_lerp.c:86-110 | every pixel of the bottom edge, from (25, 230) to (230, 230), is covered with w2 == 0, gets red blended towards green by t1 alone, and has no blue |
| `TriangleExamples.RedGreenAt126` | riscv-app-gen/rasterizer/rasterizer_lerp.c:53-57 | as written, red blended towards green by 126 is (130, 126, 0) |
| `TriangleExamples.RedFadeAt126` | riscv-app-gen/rasterizer/rasterizer_lerp.c:53 | as written, channel 255 blended towards 0 by 126 is 130 |
| `TriangleExamples.GreenRiseAt126` | riscv-app-gen/rasterizer/rasterizer_lerp.c:54-55 | channel 0 blended towards 255 by 126 is 126, and towards 0 stays 0 |
| `TriangleExamples.SceneBottomEdgeCorrected` | riscv-app-gen/rasterizer/rasterizer_lerp.c:106-110 | with the corrected blend pixel (127, 230) renders (129, 126, 0) |
| `TriangleExamples.SignedRedGreenAt126` | riscv-app-gen/rasterizer/rasterizer_lerp.c:53-57 | the corrected blend of red towards green by 126 is (129, 126, 0) |
| `TriangleExamples.SignedChannelsAt126` | riscv-app-gen/rasterizer/rasterizer_lerp.c:53-55 | the corrected channel blend by 126 takes 255 down to 129 and 0 up to 126 |

## Left out

- Image output: writing the framebuffer as a PPM file (`fopen`, `fprintf`, `fputc`) is I/O and is not modelled. The render methods end with the filled framebuffer.
- The inline-assembly custom instructions for `lerp` and `dot3` are not modelled. Their reference C bodies stand for them. In `rasterizer_lerp.c` the reference body is compiled out and the custom instruction runs; the model takes it to compute that body.
- The commented-out `dot3` of `rasterizer_lerp.c` is dead code and is not modelled.
- The `typedef` shims of the non-test build are left out. `uint8_t` is a plain `char` there. The model narrows it as unsigned, because `char` is unsigned on RISC-V.
- The `DISPLAY_NORMALS` debug branch, which stores the normal remapped by +127, is compiled out and is not modelled.
- Compile-time `#define` configuration becomes Dafny constants.
- The global `buffer` becomes an array parameter of the render methods.
- `IntSqrt.Isqrt` requires n < INT32_MAX: for n = INT32_MAX the first step `x + 1` overflows `int32_t`. Every call in the program passes at most 3 * 128 * 128.
- `Sphere.NormalizeDirection` and `Sphere.Renormalized` require a non-zero direction. For a zero light the program divides by zero. The configured light is non-zero, and every on-sphere raw normal is proven non-zero.
- `Vec.PackU8` takes channels that are bytes. `VEC4_U8` on wider values would let them overlap, but every use in the program passes bytes.
- `Vec.PackU8` takes GCC's two's-complement result for `x << 24` with x of 128 or more, an `int` overflow that ISO C leaves undefined (C11 section 6.5.7, paragraph 4). The scene colours with a channel of 200 or 255 in X hit this case.
- `Vec.PackI8` takes GCC's two's-complement result for `(x & 0xFF) << 24` when the masked byte is 128 or more (any negative x), the same `int` overflow.
- `Triangle.Weight2`: the model computes `w2` and the products `w * 255` on unbounded integers. It does not model `int32_t` overflow there. With byte coordinates these values stay far inside the `int32_t` range.
- `Triangle.Weight0`: the loop counters `x`, `y` are converted to `unsigned` before the subtraction. The model converts the difference instead, which gives the same 32 bits.
- `Sphere.RenderSphere` states its result in terms of the constant LIGHT, the value `Sphere.NormalizedLight` proves the computed light to have.
- The nested two-step blend is not true barycentric interpolation of the vertex colours. The model keeps the nested blend and proves only the properties listed above about it.

## Findings

| source | as written | input that shows it | evidently intended | confidence | as-written member | corrected member |
|---|---|---|---|---|---|---|
| riscv-app-gen/rasterizer/rasterizer_lerp.c:53-57 | the channel difference of `lerp_vec4_u8` is an `unsigned int`, so a decreasing channel wraps modulo 2^32 before the multiplication and the unsigned division | lerp of channel 255 towards 0 with t = 255 gives 1 instead of 0; every falling channel stops one above its target at t = 255. So the scene's green vertex renders (1, 255, 0), and pixel (127, 230) renders (130, 126, 0) instead of (129, 126, 0) | a signed blend `a + t*(b-a)/255` that reaches b at t = 255 and stays between a and b | high (derived by proof, not executed) | `Primitives.LerpChannelFullBelow` | `Primitives.SignedLerpEndpoints` |
| riscv-app-gen/rasterizer/rasterizer_ilum.c:122-126 | the intensity is clamped below at KA but not above at 255 before it is narrowed to the `uint8_t` factor of `lerp` | pixel (35, -3) has intensity 257, narrowed to 1, so a brightly lit pixel comes out black | intensity clamped to [KA, 255], so every lit pixel lies between the ambient colour and the sphere colour | high (derived by proof, not executed) | `SphereExamples.HighlightPixelWraps` | `Sphere.ClampedSpherePixel` |
