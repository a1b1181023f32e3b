/**
 * The colour-interpolated triangle of rasterizer_lerp.c: edge functions
 * ("barycentric weights") decide coverage, and the colour of a covered
 * pixel is a blend of the three vertex colours by two nested lerps.
 */
module Triangle {
  import opened Vec
  import opened CInt
  import opened Primitives

  const WIDTH := 256
  const HEIGHT := 256
  const MARGIN := 25
  const BACKGROUND_COLOR: Word := PackU8(15, 15, 100, 0)

  /**
   * A triangle: three vertices, each a packed word whose X and Y channels
   * are the pixel coordinates, and the colour of each vertex.
   */
  datatype Triangle = Triangle(v0: Word, v1: Word, v2: Word, c0: Word, c1: Word, c2: Word)

  /** The triangle `main` draws: red, green and blue corners inside a 25-pixel margin. */
  const SCENE := Triangle(
    PackU8(MARGIN, 255 - MARGIN, 0, 0), PackU8(255 - MARGIN, 255 - MARGIN, 0, 0), PackU8(127, MARGIN, 0, 0),
    PackU8(255, 0, 0, 0), PackU8(0, 255, 0, 0), PackU8(0, 0, 255, 0))

  /** (x, y) is a pixel of the framebuffer. */
  predicate OnScreen(x: int, y: int) {
    0 <= x < WIDTH && 0 <= y < HEIGHT
  }

  /** A pixel position. */
  datatype Point = Point(x: int, y: int)

  /** The position a vertex word encodes in its X and Y channels. */
  function Position(v: Word): Point { Point(X(v), Y(v)) }

  /**
   * The edge function of the directed edge a -> b at p: twice the signed
   * area of the triangle a, b, p.  It is zero on the line through a and b
   * and changes sign across it.
   */
  function Edge(a: Point, b: Point, p: Point): int {
    (a.y - b.y) * (p.x - b.x) + (b.x - a.x) * (p.y - b.y)
  }

  /** Splitting a difference at q splits its multiple: s * (p - r) == s * (p - q) + s * (q - r). */
  lemma ScaledDifference(s: int, p: int, q: int, r: int)
    ensures s * (p - r) == s * (p - q) + s * (q - r)
  {
  }

  /** Multiples of one value by coefficients that sum to zero cancel out. */
  lemma CancellingMultiples(a: int, b: int, c: int, u: int)
    requires a + b + c == 0
    ensures a * u + b * u + c * u == 0
  {
    assert a * u + b * u + c * u == (a + b + c) * u;
  }

  /**
   * The edge function may be measured from either end of the edge: with a
   * as the reference point instead of b it has the same value.
   */
  lemma EdgeFromOtherEnd(a: Point, b: Point, p: Point)
    ensures (a.y - b.y) * (p.x - a.x) + (b.x - a.x) * (p.y - a.y) == Edge(a, b, p)
  {
    var s, t := a.y - b.y, b.x - a.x;
    ScaledDifference(s, p.x, b.x, a.x);
    ScaledDifference(t, p.y, b.y, a.y);
    assert s * (b.x - a.x) + t * (b.y - a.y) == 0 by {
      assert t * (b.y - a.y) == -(t * s);
    }
  }

  /** Reversing an edge negates its edge function. */
  lemma EdgeAntisymmetric(a: Point, b: Point, p: Point)
    ensures Edge(b, a, p) == -Edge(a, b, p)
  {
    EdgeFromOtherEnd(a, b, p);
    var s, t := a.y - b.y, b.x - a.x;
    assert (-s) * (p.x - a.x) == -(s * (p.x - a.x));
    assert (-t) * (p.y - a.y) == -(t * (p.y - a.y));
  }

  /**
   * The three edge functions at any point add up to twice the signed area
   * of the triangle.
   */
  lemma EdgeSum(a: Point, b: Point, c: Point, p: Point)
    ensures Edge(b, c, p) + Edge(c, a, p) + Edge(a, b, p) == Edge(b, c, a)
  {
    ScaledDifference(b.y - c.y, p.x, a.x, c.x);
    ScaledDifference(c.x - b.x, p.y, a.y, c.y);
    EdgeFromOtherEnd(a, b, p);
    CancellingMultiples(b.y - c.y, c.y - a.y, a.y - b.y, p.x - a.x);
    CancellingMultiples(c.x - b.x, a.x - c.x, b.x - a.x, p.y - a.y);
  }

  /**
   * `p * q + r * s` as the program evaluates it when the operands are
   * differences involving `unsigned` channels: every step in `unsigned
   * int`.  An operand is converted once, as a whole: converting an `int`
   * loop counter first and subtracting in `unsigned` gives the same 32 bits
   * as converting the difference.
   */
  function UnsignedSumOfProducts(p: int, q: int, r: int, s: int): int {
    U32(U32(U32(p) * U32(q)) + U32(U32(r) * U32(s)))
  }

  /**
   * `denom`: the accessors yield `unsigned int`, so the whole expression is
   * unsigned and its 32-bit result is stored in an `int32_t`.  With byte
   * coordinates nothing is lost: it is twice the signed area of the
   * triangle, positive for one winding and negative for the other.
   */
  function Denom(tri: Triangle): (d: int)
    ensures d == Edge(Position(tri.v1), Position(tri.v2), Position(tri.v0))
  {
    var a, b, c := Position(tri.v0), Position(tri.v1), Position(tri.v2);
    var p, q, r, s := b.y - c.y, a.x - c.x, c.x - b.x, a.y - c.y;
    UnsignedSumOfProductsExact(p, q, r, s);
    I32(UnsignedSumOfProducts(p, q, r, s))
  }

  /**
   * `w0`, computed like `denom` with the loop counters converted to
   * `unsigned`: the edge function of v1 -> v2 at the pixel.
   */
  function Weight0(tri: Triangle, x: int, y: int): (w: int)
    requires OnScreen(x, y)
    ensures w == Edge(Position(tri.v1), Position(tri.v2), Point(x, y))
  {
    var b, c := Position(tri.v1), Position(tri.v2);
    var p, q, r, s := b.y - c.y, x - c.x, c.x - b.x, y - c.y;
    UnsignedSumOfProductsExact(p, q, r, s);
    I32(UnsignedSumOfProducts(p, q, r, s))
  }

  /**
   * `w1`, measured from v2 like `w0`: the edge function of v2 -> v0 at the
   * pixel (the reference point on that edge does not matter).
   */
  function Weight1(tri: Triangle, x: int, y: int): (w: int)
    requires OnScreen(x, y)
    ensures w == Edge(Position(tri.v2), Position(tri.v0), Point(x, y))
  {
    var a, c := Position(tri.v0), Position(tri.v2);
    var p, q, r, s := c.y - a.y, x - c.x, a.x - c.x, y - c.y;
    UnsignedSumOfProductsExact(p, q, r, s);
    EdgeFromOtherEnd(c, a, Point(x, y));
    I32(UnsignedSumOfProducts(p, q, r, s))
  }

  /**
   * `w2 = denom - w0 - w1` (in `int32_t`, where nothing overflows): the
   * edge function of v0 -> v1 at the pixel, so the three weights are
   * treated alike.
   */
  function Weight2(tri: Triangle, x: int, y: int): (w: int)
    requires OnScreen(x, y)
    ensures w == Edge(Position(tri.v0), Position(tri.v1), Point(x, y))
  {
    EdgeSum(Position(tri.v0), Position(tri.v1), Position(tri.v2), Point(x, y));
    Denom(tri) - Weight0(tri, x, y) - Weight1(tri, x, y)
  }

  /**
   * The coverage test: all three weights have the sign of `denom` (zero
   * allowed), for either winding; a degenerate triangle covers nothing.
   */
  predicate Inside(d: int, w0: int, w1: int, w2: int) {
    (d > 0 && w0 >= 0 && w1 >= 0 && w2 >= 0) || (d < 0 && w0 <= 0 && w1 <= 0 && w2 <= 0)
  }

  /** Pixel (x, y) passes the coverage test. */
  predicate Covered(tri: Triangle, x: int, y: int)
    requires OnScreen(x, y)
  {
    Inside(Denom(tri), Weight0(tri, x, y), Weight1(tri, x, y), Weight2(tri, x, y))
  }

  /** `t = (w * 255) / denom` in `int32_t`, stored in a `uint8_t`. */
  function BlendFactor(w: int, d: int): Byte
    requires d != 0
  {
    U8(CDiv(w * 255, d))
  }

  /**
   * The colour of a covered pixel with weights w1 and w2: c0 blended
   * towards c1 by t1, then the result towards c2 by t2.
   */
  function BlendedColor(tri: Triangle, d: int, w1: int, w2: int): Word
    requires d != 0
  {
    Lerp(Lerp(tri.c0, tri.c1, BlendFactor(w1, d)), tri.c2, BlendFactor(w2, d))
  }

  /**
   * The colour `main` stores for pixel (x, y): the blended colour where the
   * pixel is covered, the background colour elsewhere.  A degenerate
   * triangle covers nothing, so it never reaches the division by `denom`.
   */
  function TrianglePixel(tri: Triangle, x: int, y: int): (c: Word)
    requires OnScreen(x, y)
    ensures !Covered(tri, x, y) ==> c == BACKGROUND_COLOR
    ensures Denom(tri) == 0 ==> c == BACKGROUND_COLOR
  {
    if Covered(tri, x, y) then BlendedColor(tri, Denom(tri), Weight1(tri, x, y), Weight2(tri, x, y))
    else BACKGROUND_COLOR
  }

  /** The edge function vanishes at both ends of its edge. */
  lemma EdgeVanishesAtEnds(a: Point, b: Point)
    ensures Edge(a, b, a) == 0 && Edge(a, b, b) == 0
  {
    assert (b.x - a.x) * (a.y - b.y) == -((a.y - b.y) * (a.x - b.x));
  }

  /**
   * At each vertex of a non-degenerate triangle one weight is `denom` and
   * the other two are zero, so every vertex is covered.
   */
  lemma VertexWeights(tri: Triangle)
    requires Denom(tri) != 0
    ensures Weight0(tri, X(tri.v0), Y(tri.v0)) == Denom(tri)
    ensures Weight1(tri, X(tri.v0), Y(tri.v0)) == 0 && Weight2(tri, X(tri.v0), Y(tri.v0)) == 0
    ensures Weight1(tri, X(tri.v1), Y(tri.v1)) == Denom(tri)
    ensures Weight0(tri, X(tri.v1), Y(tri.v1)) == 0 && Weight2(tri, X(tri.v1), Y(tri.v1)) == 0
    ensures Weight2(tri, X(tri.v2), Y(tri.v2)) == Denom(tri)
    ensures Weight0(tri, X(tri.v2), Y(tri.v2)) == 0 && Weight1(tri, X(tri.v2), Y(tri.v2)) == 0
    ensures Covered(tri, X(tri.v0), Y(tri.v0)) && Covered(tri, X(tri.v1), Y(tri.v1))
    ensures Covered(tri, X(tri.v2), Y(tri.v2))
  {
    var a, b, c := Position(tri.v0), Position(tri.v1), Position(tri.v2);
    EdgeVanishesAtEnds(a, b);
    EdgeVanishesAtEnds(b, c);
    EdgeVanishesAtEnds(c, a);
    EdgeSum(a, b, c, b);
    EdgeSum(a, b, c, c);
  }

  /**
   * Inside the triangle both blend factors lie in [0, 255] and add up to at
   * most 255, so storing them in a `uint8_t` loses nothing.
   */
  lemma InsideBlendFactors(d: int, w0: int, w1: int, w2: int)
    requires Inside(d, w0, w1, w2) && w0 + w1 + w2 == d
    ensures 0 <= CDiv(w1 * 255, d) && 0 <= CDiv(w2 * 255, d)
    ensures CDiv(w1 * 255, d) + CDiv(w2 * 255, d) <= 255
    ensures BlendFactor(w1, d) == CDiv(w1 * 255, d) && BlendFactor(w2, d) == CDiv(w2 * 255, d)
  {
    var n1, n2, e := w1, w2, d;
    if d < 0 {
      n1, n2, e := -w1, -w2, -d;
      CDivBothNegated(w1 * 255, d);
      CDivBothNegated(w2 * 255, d);
    }
    assert CDiv(w1 * 255, d) == CDiv(n1 * 255, e) && CDiv(w2 * 255, d) == CDiv(n2 * 255, e);
    CDivOfNatural(n1 * 255, e);
    CDivOfNatural(n2 * 255, e);
    PositiveFactors(e, n1, n2);
    U8OfByte(CDiv(w1 * 255, d));
    U8OfByte(CDiv(w2 * 255, d));
  }

  /** With 0 <= a, b and a + b <= e, the floors of a*255/e and b*255/e sum to at most 255. */
  lemma PositiveFactors(e: int, a: int, b: int)
    requires 0 < e && 0 <= a && 0 <= b && a + b <= e
    ensures 0 <= a * 255 / e && 0 <= b * 255 / e
    ensures a * 255 / e + b * 255 / e <= 255
  {
    FloorQuotient(a * 255, e);
    FloorQuotient(b * 255, e);
    FloorsBounded(e, a, b, a * 255 / e, b * 255 / e);
  }

  /** Quotients qa, qb with qa*e <= a*255 and qb*e <= b*255 sum to at most 255 when a + b <= e. */
  lemma FloorsBounded(e: int, a: int, b: int, qa: int, qb: int)
    requires 0 < e && a + b <= e
    requires qa * e <= a * 255 && qb * e <= b * 255
    ensures qa + qb <= 255
  {
    assert (qa + qb) * e <= (a + b) * 255 by {
      assert (qa + qb) * e == qa * e + qb * e;
      assert (a + b) * 255 == a * 255 + b * 255;
    }
    MultiplyMonotonic(255, a + b, e);
    if qa + qb > 255 {
      MultiplyMonotonic(e, 256, qa + qb);
      assert false;
    }
  }

  /** A weight equal to `denom` gives the full factor 255, a zero weight the factor 0. */
  lemma ExtremeBlendFactors(d: int)
    requires d != 0
    ensures BlendFactor(d, d) == 255 && BlendFactor(0, d) == 0
  {
    CDivExact(255, d);
    CDivExact(0, d);
    U8OfByte(255);
    U8OfByte(0);
  }

  /** The vertex v0 of a non-degenerate triangle gets exactly its colour c0. */
  lemma VertexZeroColor(tri: Triangle)
    requires Denom(tri) != 0
    ensures TrianglePixel(tri, X(tri.v0), Y(tri.v0)) == tri.c0
  {
    VertexWeights(tri);
    ExtremeBlendFactors(Denom(tri));
    LerpAtZero(tri.c0, tri.c1);
    LerpAtZero(tri.c0, tri.c2);
  }

  /**
   * As written, v1 gets c0 blended all the way towards c1, which is c1 only
   * when no channel of c1 is below the matching channel of c0.
   */
  lemma VertexOneColor(tri: Triangle)
    requires Denom(tri) != 0
    ensures TrianglePixel(tri, X(tri.v1), Y(tri.v1)) == Lerp(tri.c0, tri.c1, 255)
    ensures ChannelwiseAtMost(tri.c0, tri.c1) ==> TrianglePixel(tri, X(tri.v1), Y(tri.v1)) == tri.c1
  {
    VertexWeights(tri);
    ExtremeBlendFactors(Denom(tri));
    LerpAtZero(Lerp(tri.c0, tri.c1, 255), tri.c2);
    if ChannelwiseAtMost(tri.c0, tri.c1) {
      LerpBetween(tri.c0, tri.c1, 255);
    }
  }

  /**
   * As written, v2 gets c0 blended all the way towards c2, which is c2 only
   * when no channel of c2 is below the matching channel of c0.
   */
  lemma VertexTwoColor(tri: Triangle)
    requires Denom(tri) != 0
    ensures TrianglePixel(tri, X(tri.v2), Y(tri.v2)) == Lerp(tri.c0, tri.c2, 255)
    ensures ChannelwiseAtMost(tri.c0, tri.c2) ==> TrianglePixel(tri, X(tri.v2), Y(tri.v2)) == tri.c2
  {
    VertexWeights(tri);
    ExtremeBlendFactors(Denom(tri));
    LerpAtZero(tri.c0, tri.c1);
    if ChannelwiseAtMost(tri.c0, tri.c2) {
      LerpBetween(tri.c0, tri.c2, 255);
    }
  }

  /**
   * On the edge v0 -> v1 (w2 == 0) a covered pixel gets c0 blended towards
   * c1 by t1 alone: the second blend, with factor 0, changes nothing.
   */
  lemma FirstEdgeColor(tri: Triangle, x: int, y: int)
    requires OnScreen(x, y) && Covered(tri, x, y) && Weight2(tri, x, y) == 0
    ensures TrianglePixel(tri, x, y) == Lerp(tri.c0, tri.c1, BlendFactor(Weight1(tri, x, y), Denom(tri)))
  {
    ExtremeBlendFactors(Denom(tri));
    LerpAtZero(Lerp(tri.c0, tri.c1, BlendFactor(Weight1(tri, x, y), Denom(tri))), tri.c2);
  }

  /** A pixel on the edge v0 -> v1 has no blue when neither of those vertex colours has any. */
  lemma FirstEdgeNoBlue(tri: Triangle, x: int, y: int)
    requires OnScreen(x, y) && Covered(tri, x, y) && Weight2(tri, x, y) == 0
    requires Z(tri.c0) == 0 && Z(tri.c1) == 0
    ensures Z(TrianglePixel(tri, x, y)) == 0
  {
    FirstEdgeColor(tri, x, y);
  }

  /** The same triangle with v1 and v2 (and their colours) exchanged: the other winding. */
  function Rewound(tri: Triangle): Triangle {
    Triangle(tri.v0, tri.v2, tri.v1, tri.c0, tri.c2, tri.c1)
  }

  /**
   * Coverage does not depend on the winding: reversing the order of the
   * vertices negates `denom` and every weight (w1 and w2 trade places), and
   * the test accepts both signs.
   */
  lemma CoverageIgnoresWinding(tri: Triangle, x: int, y: int)
    requires OnScreen(x, y)
    ensures Covered(Rewound(tri), x, y) == Covered(tri, x, y)
  {
    var a, b, c, p := Position(tri.v0), Position(tri.v1), Position(tri.v2), Point(x, y);
    EdgeAntisymmetric(b, c, a);
    EdgeAntisymmetric(b, c, p);
    EdgeAntisymmetric(a, b, p);
    EdgeAntisymmetric(c, a, p);
  }

  /**
   * The blend the program evidently intends: the same nested blend with the
   * signed lerp, whose channels move towards their targets whichever is
   * larger.
   */
  function CorrectedPixel(tri: Triangle, x: int, y: int): (c: Word)
    requires OnScreen(x, y)
    ensures !Covered(tri, x, y) ==> c == BACKGROUND_COLOR
    ensures Denom(tri) == 0 ==> c == BACKGROUND_COLOR
  {
    if Covered(tri, x, y) then
      var d := Denom(tri);
      SignedLerp(SignedLerp(tri.c0, tri.c1, BlendFactor(Weight1(tri, x, y), d)), tri.c2, BlendFactor(Weight2(tri, x, y), d))
    else
      BACKGROUND_COLOR
  }

  /** With the signed lerp every vertex of a non-degenerate triangle gets exactly its own colour. */
  lemma CorrectedVertexColors(tri: Triangle)
    requires Denom(tri) != 0
    ensures CorrectedPixel(tri, X(tri.v0), Y(tri.v0)) == tri.c0
    ensures CorrectedPixel(tri, X(tri.v1), Y(tri.v1)) == tri.c1
    ensures CorrectedPixel(tri, X(tri.v2), Y(tri.v2)) == tri.c2
  {
    VertexWeights(tri);
    ExtremeBlendFactors(Denom(tri));
    SignedLerpEndpoints(tri.c0, tri.c1);
    SignedLerpEndpoints(tri.c0, tri.c2);
    SignedLerpEndpoints(tri.c1, tri.c2);
  }

  /** v lies between the least and the greatest of a, b and c. */
  predicate Between3(v: int, a: int, b: int, c: int) {
    (v >= a || v >= b || v >= c) && (v <= a || v <= b || v <= c)
  }

  /** Every channel of c lies between the matching channels of the three vertex colours. */
  predicate WithinVertexColors(c: Word, tri: Triangle) {
    Between3(X(c), X(tri.c0), X(tri.c1), X(tri.c2)) && Between3(Y(c), Y(tri.c0), Y(tri.c1), Y(tri.c2)) &&
    Between3(Z(c), Z(tri.c0), Z(tri.c1), Z(tri.c2)) && Between3(W(c), W(tri.c0), W(tri.c1), W(tri.c2))
  }

  /** Two nested signed blends of a, b and c stay between the least and the greatest of them. */
  lemma NestedBlendBetween(a: Byte, b: Byte, c: Byte, t1: Byte, t2: Byte)
    ensures Between3(SignedLerpChannel(SignedLerpChannel(a, b, t1), c, t2), a, b, c)
  {
    var ab := SignedLerpChannel(a, b, t1);
    assert Between3(ab, a, b, b);
  }

  /** With the signed lerp no covered pixel leaves the range spanned by the vertex colours. */
  lemma CorrectedWithinVertexColors(tri: Triangle, x: int, y: int)
    requires OnScreen(x, y) && Covered(tri, x, y)
    ensures WithinVertexColors(CorrectedPixel(tri, x, y), tri)
  {
    var d := Denom(tri);
    var t1, t2 := BlendFactor(Weight1(tri, x, y), d), BlendFactor(Weight2(tri, x, y), d);
    NestedBlendBetween(X(tri.c0), X(tri.c1), X(tri.c2), t1, t2);
    NestedBlendBetween(Y(tri.c0), Y(tri.c1), Y(tri.c2), t1, t2);
    NestedBlendBetween(Z(tri.c0), Z(tri.c1), Z(tri.c2), t1, t2);
    NestedBlendBetween(W(tri.c0), W(tri.c1), W(tri.c2), t1, t2);
  }

  /**
   * The inner loop body: the two weights of the pixel, the third from
   * `denom`, the coverage test, and either the blended colour or the
   * background.
   */
  method ShadeTrianglePixel(tri: Triangle, denom: int, x: int, y: int) returns (c: Word)
    requires OnScreen(x, y) && denom == Denom(tri)
    ensures c == TrianglePixel(tri, x, y)
  {
    var w0 := Weight0(tri, x, y);
    var w1 := Weight1(tri, x, y);
    var w2 := denom - w0 - w1;
    assert w2 == Weight2(tri, x, y);
    if (denom > 0 && w0 >= 0 && w1 >= 0 && w2 >= 0) || (denom < 0 && w0 <= 0 && w1 <= 0 && w2 <= 0) {
      var t1 := U8(CDiv(w1 * 255, denom));
      var t2 := U8(CDiv(w2 * 255, denom));
      var c01 := Lerp(tri.c0, tri.c1, t1);
      c := Lerp(c01, tri.c2, t2);
    } else {
      c := BACKGROUND_COLOR;
    }
  }

  /**
   * The slot `y * WIDTH + x` of pixel (x, y): inside the framebuffer, and
   * distinct pixels get distinct slots.
   */
  function PixelIndex(x: int, y: int): (i: int)
    requires OnScreen(x, y)
    ensures y * WIDTH <= i < (y + 1) * WIDTH
    ensures i % WIDTH == x && i / WIDTH == y
  {
    DivModUnique(y * WIDTH + x, WIDTH, y, x);
    y * WIDTH + x
  }

  /** Every slot of the framebuffer is the slot of one pixel. */
  lemma EverySlotHasPixel(i: int)
    requires 0 <= i < WIDTH * HEIGHT
    ensures OnScreen(i % WIDTH, i / WIDTH) && PixelIndex(i % WIDTH, i / WIDTH) == i
  {
  }

  /**
   * `picture` shows the triangle: one entry per framebuffer slot, and the
   * slot of each pixel holds the colour of that pixel.
   */
  ghost predicate Shows(tri: Triangle, picture: seq<Word>) {
    |picture| == WIDTH * HEIGHT &&
    forall x, y {:trigger TrianglePixel(tri, x, y)} :: OnScreen(x, y) ==>
      picture[PixelIndex(x, y)] == TrianglePixel(tri, x, y)
  }

  /** Every triangle has a picture: the colour of each slot's pixel, in slot order. */
  lemma TrianglePicture(tri: Triangle) returns (picture: seq<Word>)
    ensures Shows(tri, picture)
  {
    picture := seq(WIDTH * HEIGHT, i requires 0 <= i < WIDTH * HEIGHT =>
      EverySlotHasPixel(i);
      TrianglePixel(tri, i % WIDTH, i / WIDTH));
  }

  /**
   * The body of the inner loop of `main`: shade pixel (x, y) and store its
   * colour in the pixel's slot, which then holds what the picture has
   * there; no other slot changes.
   */
  method DrawPixel(tri: Triangle, denom: int, buffer: array<Word>, x: int, y: int, ghost picture: seq<Word>)
    requires buffer.Length == WIDTH * HEIGHT && OnScreen(x, y) && denom == Denom(tri)
    requires Shows(tri, picture)
    modifies buffer
    ensures buffer[PixelIndex(x, y)] == picture[PixelIndex(x, y)]
    ensures forall i :: 0 <= i < buffer.Length && i != PixelIndex(x, y) ==> buffer[i] == old(buffer[i])
  {
    var c := ShadeTrianglePixel(tri, denom, x, y);
    buffer[PixelIndex(x, y)] := c;
  }

  /**
   * `main` of rasterizer_lerp.c without the image output: compute `denom`
   * once, then for y (outer) and x (inner) store the pixel's colour in slot
   * `y * WIDTH + x`.  The framebuffer ends up showing the triangle, and
   * `writes`, the number of stores per slot, is 1 everywhere: each slot is
   * written exactly once.
   */
  method RenderTriangle(tri: Triangle, buffer: array<Word>) returns (ghost writes: seq<int>)
    requires buffer.Length == WIDTH * HEIGHT
    modifies buffer
    ensures |writes| == buffer.Length && forall i :: 0 <= i < buffer.Length ==> writes[i] == 1
    ensures Shows(tri, buffer[..])
  {
    ghost var picture := TrianglePicture(tri);
    var denom := Denom(tri);
    writes := seq(buffer.Length, _ => 0);
    for y := 0 to HEIGHT
      invariant |writes| == buffer.Length
      invariant forall i :: 0 <= i < buffer.Length ==> writes[i] == if i < y * WIDTH then 1 else 0
      invariant forall i :: 0 <= i < y * WIDTH ==> buffer[i] == picture[i]
    {
      for x := 0 to WIDTH
        invariant |writes| == buffer.Length
        invariant forall i :: 0 <= i < buffer.Length ==> writes[i] == if i < y * WIDTH + x then 1 else 0
        invariant forall i :: 0 <= i < y * WIDTH + x ==> buffer[i] == picture[i]
      {
        DrawPixel(tri, denom, buffer, x, y, picture);
        var k := y * WIDTH + x;
        writes := writes[k := writes[k] + 1];
      }
    }
    assert buffer[..] == picture;
  }
}
