/**
 * Worked pixels of the triangle `main` draws in rasterizer_lerp.c: its
 * doubled area, the colours at its green and blue vertices, and the pixel
 * in the middle of its bottom edge, as written and with the signed lerp.
 */
module TriangleExamples {
  import opened Vec
  import opened CInt
  import opened Primitives
  import opened Triangle

  /** The scene's vertices sit at (25, 230), (230, 230) and (127, 25). */
  lemma ScenePositions()
    ensures Position(SCENE.v0) == Point(25, 230) && Position(SCENE.v1) == Point(230, 230)
    ensures Position(SCENE.v2) == Point(127, 25)
  {
    RedVertexPosition();
    GreenVertexPosition();
    BlueVertexPosition();
  }

  lemma RedVertexPosition()
    ensures Position(SCENE.v0) == Point(25, 230)
  {
    UnpackPackU8(25, 230, 0, 0);
  }

  lemma GreenVertexPosition()
    ensures Position(SCENE.v1) == Point(230, 230)
  {
    UnpackPackU8(230, 230, 0, 0);
  }

  lemma BlueVertexPosition()
    ensures Position(SCENE.v2) == Point(127, 25)
  {
    UnpackPackU8(127, 25, 0, 0);
  }

  /** Twice the area of the scene's triangle is 42025; its winding makes `denom` negative. */
  lemma SceneDenom()
    ensures Denom(SCENE) == -42025
  {
    ScenePositions();
  }

  /** The red vertex (25, 230) comes out exactly red. */
  lemma SceneRedVertex()
    ensures TrianglePixel(SCENE, 25, 230) == PackU8(255, 0, 0, 0)
  {
    ScenePositions();
    SceneDenom();
    VertexZeroColor(SCENE);
  }

  /**
   * As written, the green vertex (230, 230) comes out (1, 255, 0): the red
   * channel, blended from 255 down to 0, stops at 1.
   */
  lemma SceneGreenVertex()
    ensures TrianglePixel(SCENE, 230, 230) == PackU8(1, 255, 0, 0)
  {
    ScenePositions();
    SceneDenom();
    VertexOneColor(SCENE);
    RedTowardsGreen();
  }

  /** Blending pure red all the way towards pure green leaves 1 in the red channel. */
  lemma RedTowardsGreen()
    ensures Lerp(PackU8(255, 0, 0, 0), PackU8(0, 255, 0, 0), 255) == PackU8(1, 255, 0, 0)
  {
    LerpOfPacks(255, 0, 0, 0, 0, 255, 0, 0, 255);
    LerpChannelWrapsDownward();
  }

  /** As written, the blue vertex (127, 25) comes out (1, 0, 255). */
  lemma SceneBlueVertex()
    ensures TrianglePixel(SCENE, 127, 25) == PackU8(1, 0, 255, 0)
  {
    ScenePositions();
    SceneDenom();
    VertexTwoColor(SCENE);
    RedTowardsBlue();
  }

  /** Blending pure red all the way towards pure blue leaves 1 in the red channel. */
  lemma RedTowardsBlue()
    ensures Lerp(PackU8(255, 0, 0, 0), PackU8(0, 0, 255, 0), 255) == PackU8(1, 0, 255, 0)
  {
    LerpOfPacks(255, 0, 0, 0, 0, 0, 255, 0, 255);
    LerpChannelWrapsDownward();
  }

  /** With the signed lerp the green and blue vertices get exactly green and blue. */
  lemma SceneCorrectedVertices()
    ensures CorrectedPixel(SCENE, 230, 230) == PackU8(0, 255, 0, 0)
    ensures CorrectedPixel(SCENE, 127, 25) == PackU8(0, 0, 255, 0)
  {
    ScenePositions();
    SceneDenom();
    CorrectedVertexColors(SCENE);
  }

  /**
   * The middle of the bottom edge, (127, 230), is covered with weights
   * (-21115, -20910, 0): the blend factors are 126 and 0.
   */
  lemma BottomEdgeWeights()
    ensures Covered(SCENE, 127, 230)
    ensures BlendFactor(Weight1(SCENE, 127, 230), Denom(SCENE)) == 126
    ensures BlendFactor(Weight2(SCENE, 127, 230), Denom(SCENE)) == 0
  {
    BottomEdgeEdges();
    SceneDenom();
    assert CDiv(-20910 * 255, -42025) == 126 by {
      CDivBothNegated(20910 * 255, 42025);
      CDivOfNatural(20910 * 255, 42025);
    }
    ExtremeBlendFactors(-42025);
  }

  lemma BottomEdgeEdges()
    ensures Weight0(SCENE, 127, 230) == -21115
    ensures Weight1(SCENE, 127, 230) == -20910
    ensures Weight2(SCENE, 127, 230) == 0
  {
    ScenePositions();
  }

  /**
   * As written, the middle of the bottom edge comes out (130, 126, 0): the
   * red channel, blended down from 255 with factor 126, lands one above
   * the 129 that a signed blend gives.
   */
  lemma SceneBottomEdge()
    ensures TrianglePixel(SCENE, 127, 230) == PackU8(130, 126, 0, 0)
  {
    BottomEdgeWeights();
    BottomEdgeEdges();
    FirstEdgeColor(SCENE, 127, 230);
    RedGreenAt126();
  }

  /**
   * Every pixel of the bottom edge, from the red vertex (25, 230) to the
   * green one (230, 230), is covered with no weight on the blue vertex: its
   * colour is red blended towards green alone, and it has no blue in it.
   */
  lemma BottomEdge(x: int)
    requires 25 <= x <= 230
    ensures Covered(SCENE, x, 230) && Weight2(SCENE, x, 230) == 0
    ensures TrianglePixel(SCENE, x, 230)
      == Lerp(SCENE.c0, SCENE.c1, BlendFactor(Weight1(SCENE, x, 230), Denom(SCENE)))
    ensures Z(TrianglePixel(SCENE, x, 230)) == 0
  {
    BottomEdgeCoverage(x);
    FirstEdgeColor(SCENE, x, 230);
    RedHasNoBlue();
    GreenHasNoBlue();
    FirstEdgeNoBlue(SCENE, x, 230);
  }

  /** On the bottom edge w0 and w1 share the sign of `denom` and w2 vanishes. */
  lemma BottomEdgeCoverage(x: int)
    requires 25 <= x <= 230
    ensures Covered(SCENE, x, 230) && Weight2(SCENE, x, 230) == 0
  {
    ScenePositions();
    SceneDenom();
    assert Weight0(SCENE, x, 230) == 205 * (x - 230);
    assert Weight1(SCENE, x, 230) == -205 * (x - 25);
  }

  lemma RedHasNoBlue()
    ensures Z(SCENE.c0) == 0
  {
    UnpackPackU8(255, 0, 0, 0);
  }

  lemma GreenHasNoBlue()
    ensures Z(SCENE.c1) == 0
  {
    UnpackPackU8(0, 255, 0, 0);
  }

  /** Red blended towards green with factor 126, as written. */
  lemma RedGreenAt126()
    ensures Lerp(PackU8(255, 0, 0, 0), PackU8(0, 255, 0, 0), 126) == PackU8(130, 126, 0, 0)
  {
    LerpOfPacks(255, 0, 0, 0, 0, 255, 0, 0, 126);
    RedFadeAt126();
    GreenRiseAt126();
  }

  /** The red channel 255 blended towards 0 with factor 126 comes out 130. */
  lemma RedFadeAt126()
    ensures LerpChannel(255, 0, 126) == 130
  {
    assert U32(0 - 255) == 0xFFFF_FF01;
    assert U32(126 * 0xFFFF_FF01) == 4294935166;
    assert 4294935166 / 255 == 16842883;
    assert U32(255 + 16842883) == 16843138;
  }

  /** The channels that do not shrink come out as a signed blend would give them. */
  lemma GreenRiseAt126()
    ensures LerpChannel(0, 255, 126) == 126 && LerpChannel(0, 0, 126) == 0
  {
    assert 126 * 255 / 255 == 126;
  }

  /** With the signed lerp the middle of the bottom edge comes out (129, 126, 0). */
  lemma SceneBottomEdgeCorrected()
    ensures CorrectedPixel(SCENE, 127, 230) == PackU8(129, 126, 0, 0)
  {
    BottomEdgeWeights();
    SignedLerpEndpoints(SignedLerp(SCENE.c0, SCENE.c1, 126), SCENE.c2);
    SignedRedGreenAt126();
  }

  /** Red blended towards green with factor 126 by the signed lerp. */
  lemma SignedRedGreenAt126()
    ensures SignedLerp(PackU8(255, 0, 0, 0), PackU8(0, 255, 0, 0), 126) == PackU8(129, 126, 0, 0)
  {
    SignedLerpOfPacks(255, 0, 0, 0, 0, 255, 0, 0, 126);
    SignedChannelsAt126();
  }

  /** The signed blend with factor 126 takes 255 down to 129 and 0 up to 126. */
  lemma SignedChannelsAt126()
    ensures SignedLerpChannel(255, 0, 126) == 129 && SignedLerpChannel(0, 255, 126) == 126
    ensures SignedLerpChannel(0, 0, 126) == 0
  {
    assert SignedLerpChannel(255, 0, 126) == 129 by {
      assert 126 * (0 - 255) == -(126 * 255);
      CDivNegated(126 * 255, 255);
    }
    assert SignedLerpChannel(0, 255, 126) == 126 by {
      CDivOfNatural(126 * 255, 255);
    }
    CDivOfNatural(0, 255);
  }
}
