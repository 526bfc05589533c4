/**
 * How the demo builder (DxPolygonDraw) relates to the library builder
 * (LibDxPathRendering): the two winding tests agree on every polygon, the inline
 * offset gives the same rings as PolygonStroke whenever the length behaves like the
 * Euclidean length, both builders append the same corners, and the demo's triangles
 * are the library's with one extra fan for a fill of another colour.
 */
module Variants {
  import opened Geometry
  import opened Triangulation
  import Lib = LibDxPathRendering
  import Demo = DxPolygonDraw

  /** Both winding tests, on the same polygon: the guarded SIMD one and the plain loop agree. */
  method WindingTestsAgree(points: seq<Point>, laneCount: nat) returns (library: bool, demo: bool)
    requires Lib.ValidLaneCount(laneCount)
    ensures library == demo
    ensures demo <==> Shoelace(points) > 0.0
  {
    library := Lib.IsClockwise(points, laneCount);
    demo := Demo.IsClockwise(points);
  }

  /**
   * What a square-root length has beyond IsLength: it is never negative and it is zero
   * on the zero vector, so "length > 0" and "vector != zero" pick the same vectors.
   */
  ghost predicate EuclideanLike(length: Vector2 -> real)
  {
    IsLength(length) && length(Zero) == 0.0 && forall v :: length(v) >= 0.0
  }

  /** Normalising when the length is positive is normalising when the vector is not zero. */
  lemma UnitsAgree(v: Vector2, length: Vector2 -> real)
    requires EuclideanLike(length)
    ensures Demo.UnitIfPositive(v, length) == UnitOrZero(v, length)
  {
    if v != Zero {
      assert length(v) != 0.0 && length(v) >= 0.0;
    }
  }

  /** The inline offset loop computes the offsets PolygonStroke computes, point by point. */
  lemma OffsetsAgree(points: seq<Point>, thickness: real, length: Vector2 -> real)
    requires EuclideanLike(length)
    ensures Demo.JoinOffsets(points, thickness, Clockwise(points), length) == Offsets(points, thickness, length)
  {
    var n := |points|;
    forall i | 0 <= i < n
      ensures Demo.JoinOffsets(points, thickness, Clockwise(points), length)[i] == Offsets(points, thickness, length)[i]
    {
      var prev := points[PrevIndex(i, n)];
      var next := points[NextIndex(i, n)];
      UnitsAgree(Sub(points[i], prev), length);
      UnitsAgree(Sub(next, points[i]), length);
      assert Demo.EdgeNormal(prev, points[i], Clockwise(points), length) == PrevNormal(points, i, Clockwise(points), length);
      assert Demo.EdgeNormal(points[i], next, Clockwise(points), length) == NextNormal(points, i, Clockwise(points), length);
    }
  }

  /** So both builders put the same rings in their caches. */
  lemma RingsAgree(points: seq<Point>, thickness: real, length: Vector2 -> real)
    requires EuclideanLike(length)
    ensures Demo.StrokeOuterRing(points, thickness, length) == OuterRing(points, thickness, length)
    ensures Demo.StrokeInnerRing(points, thickness, length) == InnerRing(points, thickness, length)
  {
    OffsetsAgree(points, thickness, length);
  }

  /**
   * Given the same rings, both builders append vertices with the same positions and
   * colours, in the same order. Each builder writes its layout over its own vertex
   * record (the library's flat X, Y, R, G, B, A; the demo's MeshVertex and MeshColor), so
   * each module defines it over its own datatype. Read as corners, the two layouts have
   * the same shape. In the source the loops differ only by the record and the demo's
   * `(float)` casts, and the casts are not modelled.
   */
  lemma VerticesAgree(attrs: FigureAttributes, points: seq<Point>, outer: seq<Point>, inner: seq<Point>)
    requires |outer| == |inner|
    ensures Demo.Corners(Demo.FigureVerticesOf(attrs, points, outer, inner))
         == Lib.Corners(Lib.FigureVerticesOf(attrs, points, outer, inner))
  {
    Demo.FigureVertexCorners(attrs, points, outer, inner);
    Lib.FigureVertexCorners(attrs, points, outer, inner);
  }

  /**
   * The demo appends the library's triangles, except that for a stroke filled in another
   * colour it also emits the fan over the inner ring's stroke vertices, between the
   * ribbon and the fill fan.
   */
  lemma TrianglesAgree(attrs: FigureAttributes, base: nat, n: nat)
    requires n >= 3
    ensures !(attrs.stroke && attrs.fill && ColorsDiffer(attrs.fillColor, attrs.strokeColor)) ==>
      Demo.FigureTriangles(attrs, base, n) == Lib.FigureTriangles(attrs, base, n)
    ensures attrs.stroke && attrs.fill && ColorsDiffer(attrs.fillColor, attrs.strokeColor) ==>
      Demo.FigureTriangles(attrs, base, n)
        == Lib.FigureTriangles(attrs, base, n)[..2 * n] + Fan(base + 1, 2, n) + Lib.FigureTriangles(attrs, base, n)[2 * n..]
  {
    if attrs.stroke && attrs.fill {
      var ribbon := Ribbon(base, n);
      if ColorsDiffer(attrs.fillColor, attrs.strokeColor) {
        var fill := Fan(base + 2 * n, 1, n);
        assert Lib.FigureTriangles(attrs, base, n) == ribbon + fill;
        assert (ribbon + fill)[..2 * n] == ribbon;
        assert (ribbon + fill)[2 * n..] == fill;
        AppendTwice(ribbon, Fan(base + 1, 2, n), fill);
      } else {
        assert Fan(base + 1, 2, n) + [] == Fan(base + 1, 2, n);
      }
    }
  }

  /**
   * With a length that behaves like the Euclidean one, the demo draws the faces the
   * library draws, except that a fill of another colour is preceded by the same fan in
   * the stroke colour.
   */
  lemma FacesAgree(attrs: FigureAttributes, points: seq<Point>, length: Vector2 -> real)
    requires |points| >= 3 && EuclideanLike(length)
    ensures !(attrs.stroke && attrs.fill && ColorsDiffer(attrs.fillColor, attrs.strokeColor)) ==>
      Demo.FacesDrawn(attrs, points, length) == FigureFaces(attrs, points, length)
    ensures attrs.stroke && attrs.fill && ColorsDiffer(attrs.fillColor, attrs.strokeColor) ==>
      Demo.FacesDrawn(attrs, points, length)
        == FigureFaces(attrs, points, length)[..2 * |points|]
         + RingFan(InnerRing(points, attrs.strokeThickness, length), attrs.strokeColor)
         + FigureFaces(attrs, points, length)[2 * |points|..]
  {
    RingsAgree(points, attrs.strokeThickness, length);
    Demo.FacesDrawnOverdrawFill(attrs, points, OuterRing(points, attrs.strokeThickness, length),
                                InnerRing(points, attrs.strokeThickness, length));
  }
}
