/**
 * The path mesh builder of the DxPolygonDraw demo application. It follows the same
 * figure protocol as the library builder, but tests the winding with a plain loop,
 * computes the stroke offset inline in CloseFigure, ignores a figure of fewer than
 * 3 points instead of failing, and, for a fill of another colour than the stroke,
 * emits the fan over the stroke's inner vertices as well as the fan over the
 * fill-coloured copy.
 */
module DxPolygonDraw {
  import opened Geometry
  import opened Triangulation

  /** A vertex position. */
  datatype MeshVertex = MeshVertex(x: real, y: real)

  /** The demo's vertex record: a position and a colour. */
  datatype MeshVertexAndColor = MeshVertexAndColor(vertex: MeshVertex, color: MeshColor)

  function VertexOf(p: Point, c: MeshColor): MeshVertexAndColor
  {
    MeshVertexAndColor(MeshVertex(p.x, p.y), c)
  }

  function CornerOf(v: MeshVertexAndColor): Corner
  {
    Corner(Point(v.vertex.x, v.vertex.y), v.color)
  }

  /** The vertex list as positions and colours. */
  function Corners(vs: seq<MeshVertexAndColor>): (r: seq<Corner>)
    ensures |r| == |vs|
  {
    seq(|vs|, k requires 0 <= k < |vs| => CornerOf(vs[k]))
  }

  lemma CornersAppend(a: seq<MeshVertexAndColor>, b: seq<MeshVertexAndColor>)
    ensures Corners(a + b) == Corners(a) + Corners(b)
  {
  }

  // ---------------------------------------------------------------------------
  // IsClockwise: the shoelace sum, one edge at a time

  /**
   * Whether the polygon winds clockwise: whether the wrap-around shoelace sum is
   * positive. There is no guard for short polygons; their sum is zero, so the answer
   * is false for them as well.
   */
  method IsClockwise(points: seq<Point>) returns (clockwise: bool)
    ensures clockwise <==> Shoelace(points) > 0.0
    ensures |points| < 3 ==> !clockwise
  {
    ghost var t := Terms(points);
    var sum := 0.0;
    var i := 0;
    assert t[..0] == [];
    while i < |points|
      invariant 0 <= i <= |points|
      invariant sum == Sum(t[..i])
    {
      var current := points[i];
      var next := points[(i + 1) % |points|];
      assert (next.x - current.x) * (next.y + current.y) == t[i] by { NextIndexIsMod(i, |points|); }
      SumPrefixStep(t, i);
      sum := sum + (next.x - current.x) * (next.y + current.y);
      i := i + 1;
    }
    assert t[..|points|] == t;
    if |points| < 3 {
      ShoelaceOfShortPolygon(points);
    }
    return sum > 0.0;
  }

  // ---------------------------------------------------------------------------
  // The stroke offset CloseFigure computes inline

  /** An edge vector divided by its length when that length is positive, as CloseFigure normalises. */
  function UnitIfPositive(v: Vector2, length: Vector2 -> real): Vector2
  {
    if length(v) > 0.0 then Div(v, length(v)) else v
  }

  /** The outward normal of the edge from -> to: the left normal, negated when not clockwise. */
  function EdgeNormal(from: Point, to: Point, clockwise: bool, length: Vector2 -> real): Vector2
  {
    Outward(LeftNormal(UnitIfPositive(Sub(to, from), length)), clockwise)
  }

  /** The miter offset at `current`, between the edges arriving from `prev` and leaving to `next`. */
  function JoinOffset(prev: Point, current: Point, next: Point, thickness: real, clockwise: bool,
                      length: Vector2 -> real): Vector2
  {
    MiterOffset(EdgeNormal(prev, current, clockwise, length), EdgeNormal(current, next, clockwise, length),
                thickness, length)
  }

  /** The offsets of all points of the closed polygon, index-aligned with it, for a given winding. */
  function JoinOffsets(points: seq<Point>, thickness: real, clockwise: bool, length: Vector2 -> real): (r: seq<Vector2>)
    ensures |r| == |points|
  {
    seq(|points|, i requires 0 <= i < |points| =>
      JoinOffset(points[PrevIndex(i, |points|)], points[i], points[NextIndex(i, |points|)],
                 thickness, clockwise, length))
  }

  /** Each point moved by its offset, for a given winding. */
  function OuterRingOf(points: seq<Point>, thickness: real, clockwise: bool, length: Vector2 -> real): (r: seq<Point>)
    ensures |r| == |points|
  {
    Displaced(points, JoinOffsets(points, thickness, clockwise, length))
  }

  /** Each point moved against its offset, for a given winding. */
  function InnerRingOf(points: seq<Point>, thickness: real, clockwise: bool, length: Vector2 -> real): (r: seq<Point>)
    ensures |r| == |points|
  {
    Retracted(points, JoinOffsets(points, thickness, clockwise, length))
  }

  /** The outer ring CloseFigure puts in the outer cache: the offsets for the polygon's own winding. */
  function StrokeOuterRing(points: seq<Point>, thickness: real, length: Vector2 -> real): (r: seq<Point>)
    ensures |r| == |points|
  {
    OuterRingOf(points, thickness, Clockwise(points), length)
  }

  /** The inner ring CloseFigure puts in the inner cache. */
  function StrokeInnerRing(points: seq<Point>, thickness: real, length: Vector2 -> real): (r: seq<Point>)
    ensures |r| == |points|
  {
    InnerRingOf(points, thickness, Clockwise(points), length)
  }

  /** Ring point i is point i moved by, or against, the join offset between its two neighbours. */
  lemma RingPointsAt(points: seq<Point>, i: nat, prevIndex: nat, nextIndex: nat, thickness: real,
                     clockwise: bool, length: Vector2 -> real)
    requires i < |points| && prevIndex == PrevIndex(i, |points|) && nextIndex == NextIndex(i, |points|)
    ensures OuterRingOf(points, thickness, clockwise, length)[i]
         == Add(points[i], JoinOffset(points[prevIndex], points[i], points[nextIndex], thickness, clockwise, length))
    ensures InnerRingOf(points, thickness, clockwise, length)[i]
         == Sub(points[i], JoinOffset(points[prevIndex], points[i], points[nextIndex], thickness, clockwise, length))
  {
  }

  /** The two rings are mirrored through the polygon, point by point. */
  lemma StrokeRingsMirrored(points: seq<Point>, thickness: real, length: Vector2 -> real)
    ensures forall i :: 0 <= i < |points| ==>
      Midpoint(StrokeOuterRing(points, thickness, length)[i], StrokeInnerRing(points, thickness, length)[i]) == points[i]
  {
    DisplacedRetractedMirrored(points, JoinOffsets(points, thickness, Clockwise(points), length));
  }

  /** Taking the polygon as counter-clockwise instead of clockwise flips every join offset. */
  lemma JoinOffsetFlipsWithWinding(prev: Point, current: Point, next: Point, thickness: real,
                                   length: Vector2 -> real)
    requires IsLength(length)
    ensures JoinOffset(prev, current, next, thickness, false, length)
         == Neg(JoinOffset(prev, current, next, thickness, true, length))
  {
    MiterOffsetOdd(EdgeNormal(prev, current, true, length), EdgeNormal(current, next, true, length),
                   thickness, length);
  }

  /**
   * The part of CloseFigure's offset loop that handles one edge: its vector, divided by
   * its length when that is positive, turned into the left normal (-dy, dx) and negated
   * when the polygon is not clockwise.
   */
  method EdgeNormalOf(from: Point, to: Point, isClockwise: bool, length: Vector2 -> real)
    returns (nx: real, ny: real)
    ensures Point(nx, ny) == EdgeNormal(from, to, isClockwise, length)
  {
    var dx := to.x - from.x;
    var dy := to.y - from.y;
    var len := length(Point(dx, dy));
    if len > 0.0 {
      dx := dx / len;
      dy := dy / len;
    }
    nx := -dy;
    ny := dx;
    if !isClockwise {
      nx := -nx;
      ny := -ny;
    }
  }

  /**
   * The rest of the loop body for one point: the point moved along the normalised
   * bisector of the two edge normals by halfThickness / (|bisector| / 2), or along the
   * incoming normal by halfThickness when the bisector is (nearly) zero.
   */
  method MiterJoin(current: Point, nx1: real, ny1: real, nx2: real, ny2: real, thickness: real,
                   length: Vector2 -> real)
    returns (outer: Point, inner: Point)
    ensures outer == Add(current, MiterOffset(Point(nx1, ny1), Point(nx2, ny2), thickness, length))
    ensures inner == Sub(current, MiterOffset(Point(nx1, ny1), Point(nx2, ny2), thickness, length))
  {
    var halfThickness := thickness / 2.0;
    var nx := nx1 + nx2;
    var ny := ny1 + ny2;
    var nlen := length(Point(nx, ny));
    if nlen > BisectorThreshold {
      nx := nx / nlen;
      ny := ny / nlen;
      var sinHalfAngle := nlen / 2.0;
      var offsetFactor := if sinHalfAngle != 0.0 then 1.0 / sinHalfAngle else 1.0;
      var offsetX := nx * halfThickness * offsetFactor;
      var offsetY := ny * halfThickness * offsetFactor;
      outer := Point(current.x + offsetX, current.y + offsetY);
      inner := Point(current.x - offsetX, current.y - offsetY);
    } else {
      outer := Point(current.x + nx1 * halfThickness, current.y + ny1 * halfThickness);
      inner := Point(current.x - nx1 * halfThickness, current.y - ny1 * halfThickness);
    }
  }

  /** The body of CloseFigure's offset loop for one point: its outer and inner ring points. */
  method OffsetJoin(prev: Point, current: Point, next: Point, isClockwise: bool, thickness: real,
                    length: Vector2 -> real)
    returns (outer: Point, inner: Point)
    ensures outer == Add(current, JoinOffset(prev, current, next, thickness, isClockwise, length))
    ensures inner == Sub(current, JoinOffset(prev, current, next, thickness, isClockwise, length))
  {
    var nx1, ny1 := EdgeNormalOf(prev, current, isClockwise, length);
    var nx2, ny2 := EdgeNormalOf(current, next, isClockwise, length);
    outer, inner := MiterJoin(current, nx1, ny1, nx2, ny2, thickness, length);
  }

  /** The indices of the points before and after point i of a closed polygon of `count` points. */
  method Neighbours(i: nat, count: nat) returns (prevIndex: nat, nextIndex: nat)
    requires i < count
    ensures prevIndex == PrevIndex(i, count) && nextIndex == NextIndex(i, count)
  {
    PrevIndexIsMod(i, count);
    NextIndexIsMod(i, count);
    prevIndex := (i + count - 1) % count;
    nextIndex := (i + 1) % count;
  }

  // ---------------------------------------------------------------------------
  // What CloseFigure appends

  /** The stroke's vertices: for each point, its outer then its inner ring point, in one colour. */
  function StrokeVertices(outer: seq<Point>, inner: seq<Point>, color: MeshColor): (r: seq<MeshVertexAndColor>)
    requires |outer| == |inner|
    ensures |r| == 2 * |outer|
  {
    seq(2 * |outer|, k requires 0 <= k < 2 * |outer| =>
      if k % 2 == 0 then VertexOf(outer[k / 2], color) else VertexOf(inner[k / 2], color))
  }

  /** One vertex per ring point, in one colour. */
  function RingVertices(ring: seq<Point>, color: MeshColor): (r: seq<MeshVertexAndColor>)
    ensures |r| == |ring|
  {
    seq(|ring|, j requires 0 <= j < |ring| => VertexOf(ring[j], color))
  }

  /**
   * The vertices CloseFigure appends for a figure of at least 3 points, given its stroke
   * rings: the interleaved rings in the stroke colour, then, for a fill of another colour,
   * the inner ring again in the fill colour; for a fill alone, the points in the fill colour.
   */
  function FigureVerticesOf(attrs: FigureAttributes, points: seq<Point>, outer: seq<Point>, inner: seq<Point>)
    : seq<MeshVertexAndColor>
    requires |outer| == |inner|
  {
    if attrs.stroke then
      StrokeVertices(outer, inner, attrs.strokeColor)
        + (if attrs.fill && ColorsDiffer(attrs.fillColor, attrs.strokeColor) then RingVertices(inner, attrs.fillColor) else [])
    else if attrs.fill then RingVertices(points, attrs.fillColor)
    else []
  }

  /** The vertices CloseFigure appends, with the rings of its inline offset. */
  function FigureVertices(attrs: FigureAttributes, points: seq<Point>, length: Vector2 -> real): seq<MeshVertexAndColor>
  {
    FigureVerticesOf(attrs, points, StrokeOuterRing(points, attrs.strokeThickness, length),
                     StrokeInnerRing(points, attrs.strokeThickness, length))
  }

  /** When stroked, the caches hold the stroke rings; otherwise the rings do not matter. */
  lemma CachedRingsVertices(attrs: FigureAttributes, points: seq<Point>, length: Vector2 -> real,
                            outer: seq<Point>, inner: seq<Point>)
    requires |outer| == |inner|
    requires attrs.stroke ==> (outer == StrokeOuterRing(points, attrs.strokeThickness, length)
                               && inner == StrokeInnerRing(points, attrs.strokeThickness, length))
    ensures FigureVerticesOf(attrs, points, outer, inner) == FigureVertices(attrs, points, length)
  {
  }

  /**
   * The triangles CloseFigure appends for a figure of n >= 3 points whose vertices start
   * at `base`: the ribbon; for a fill, the fan over the inner ring's stroke vertices (stride
   * 2), followed, when the fill colour differs, by the fan over the fill-coloured copy of the
   * inner ring (stride 1); for a fill alone, the fan over the points.
   */
  function FigureTriangles(attrs: FigureAttributes, base: nat, n: nat): seq<MeshTriangleIndices>
    requires n >= 3
  {
    if attrs.stroke then
      Ribbon(base, n)
        + (if !attrs.fill then []
           else Fan(base + 1, 2, n)
                  + (if ColorsDiffer(attrs.fillColor, attrs.strokeColor) then Fan(base + 2 * n, 1, n) else []))
    else if attrs.fill then Fan(base, 1, n)
    else []
  }

  /**
   * The faces those triangles draw, given the stroke rings: the band in the stroke colour;
   * for a fill, the inner ring's fan in the stroke colour and, when the fill colour
   * differs, the same fan again in the fill colour; for a fill alone, the points' fan.
   */
  function FacesDrawnOf(attrs: FigureAttributes, points: seq<Point>, outer: seq<Point>, inner: seq<Point>): seq<Face>
    requires |points| >= 3 && |outer| == |inner| == |points|
  {
    if attrs.stroke then
      RingRibbon(outer, inner, attrs.strokeColor)
        + (if !attrs.fill then []
           else RingFan(inner, attrs.strokeColor)
                  + (if ColorsDiffer(attrs.fillColor, attrs.strokeColor) then RingFan(inner, attrs.fillColor) else []))
    else if attrs.fill then RingFan(points, attrs.fillColor)
    else []
  }

  /** The faces a closed figure draws, with the rings of the inline offset. */
  function FacesDrawn(attrs: FigureAttributes, points: seq<Point>, length: Vector2 -> real): seq<Face>
    requires |points| >= 3
  {
    FacesDrawnOf(attrs, points, StrokeOuterRing(points, attrs.strokeThickness, length),
                 StrokeInnerRing(points, attrs.strokeThickness, length))
  }

  /**
   * What the figure draws is what it is meant to draw (the band in the stroke colour and
   * the fill fan in the fill colour), except that a fill of another colour is preceded by
   * the same fan in the stroke colour, which the fill then covers.
   */
  lemma FacesDrawnOverdrawFill(attrs: FigureAttributes, points: seq<Point>, outer: seq<Point>, inner: seq<Point>)
    requires |points| >= 3 && |outer| == |inner| == |points|
    ensures !(attrs.stroke && attrs.fill && ColorsDiffer(attrs.fillColor, attrs.strokeColor)) ==>
      FacesDrawnOf(attrs, points, outer, inner) == FigureFacesOf(attrs, points, outer, inner)
    ensures attrs.stroke && attrs.fill && ColorsDiffer(attrs.fillColor, attrs.strokeColor) ==>
      FacesDrawnOf(attrs, points, outer, inner)
        == FigureFacesOf(attrs, points, outer, inner)[..2 * |points|]
         + RingFan(inner, attrs.strokeColor)
         + FigureFacesOf(attrs, points, outer, inner)[2 * |points|..]
  {
    if attrs.stroke && attrs.fill {
      var band := RingRibbon(outer, inner, attrs.strokeColor);
      var fill := RingFan(inner, attrs.fillColor);
      assert FigureFacesOf(attrs, points, outer, inner) == band + fill;
      assert (band + fill)[..2 * |points|] == band;
      assert (band + fill)[2 * |points|..] == fill;
      if ColorsDiffer(attrs.fillColor, attrs.strokeColor) {
        AppendTwice(band, RingFan(inner, attrs.strokeColor), fill);
      } else {
        assert attrs.fillColor == attrs.strokeColor;
        assert RingFan(inner, attrs.strokeColor) + [] == fill;
      }
    }
  }

  /**
   * How many vertices and triangles one figure adds: 2n vertices and 2n triangles for the
   * stroke; for a fill, n - 2 more triangles, and for a fill of another colour n more
   * vertices and another n - 2 triangles; n vertices and n - 2 triangles for a fill alone.
   */
  lemma FigureCounts(attrs: FigureAttributes, points: seq<Point>, outer: seq<Point>, inner: seq<Point>, base: nat)
    requires |points| >= 3 && |outer| == |inner| == |points|
    ensures |FigureVerticesOf(attrs, points, outer, inner)|
        == if attrs.stroke then 2 * |points| + (if attrs.fill && ColorsDiffer(attrs.fillColor, attrs.strokeColor) then |points| else 0)
           else if attrs.fill then |points| else 0
    ensures |FigureTriangles(attrs, base, |points|)|
        == if attrs.stroke then 2 * |points| + (if !attrs.fill then 0
                                                else if ColorsDiffer(attrs.fillColor, attrs.strokeColor) then 2 * (|points| - 2)
                                                else |points| - 2)
           else if attrs.fill then |points| - 2 else 0
  {
  }

  /** The vertex capacity CloseFigure reserves for a figure of n points that is stroked or filled. */
  function RequiredVertexCapacity(vertexCount: nat, attrs: FigureAttributes, n: nat): nat
  {
    if attrs.stroke then
      vertexCount + n * 2 + (if attrs.fill && ColorsDiffer(attrs.fillColor, attrs.strokeColor) then n else 0)
    else vertexCount + n
  }

  /** The index capacity CloseFigure reserves for a figure of n >= 3 points that is stroked or filled. */
  function RequiredIndicesCapacity(indexCount: nat, attrs: FigureAttributes, n: nat): nat
    requires n >= 3
  {
    if attrs.stroke then
      indexCount + n * 2
        + (if attrs.fill then (n - 2) * (if ColorsDiffer(attrs.fillColor, attrs.strokeColor) then 2 else 1) else 0)
    else indexCount + n - 2
  }

  /**
   * The capacities CloseFigure reserves before appending are exactly the list lengths
   * after appending: nothing it appends outgrows them, and nothing is reserved in vain.
   */
  lemma CapacityIsExact(vertices: seq<MeshVertexAndColor>, indices: seq<MeshTriangleIndices>,
                        attrs: FigureAttributes, points: seq<Point>, outer: seq<Point>, inner: seq<Point>)
    requires |points| >= 3 && |outer| == |inner| == |points|
    requires attrs.stroke || attrs.fill
    ensures |vertices + FigureVerticesOf(attrs, points, outer, inner)|
         == RequiredVertexCapacity(|vertices|, attrs, |points|)
    ensures |indices + FigureTriangles(attrs, |vertices|, |points|)|
         == RequiredIndicesCapacity(|indices|, attrs, |points|)
  {
    FigureCounts(attrs, points, outer, inner, |vertices|);
  }

  // ---------------------------------------------------------------------------
  // What the appended triangles draw

  lemma StrokeVertexCorners(outer: seq<Point>, inner: seq<Point>, color: MeshColor)
    requires |outer| == |inner|
    ensures Corners(StrokeVertices(outer, inner, color)) == Interleaved(Colored(outer, color), Colored(inner, color))
  {
  }

  lemma RingVertexCorners(ring: seq<Point>, color: MeshColor)
    ensures Corners(RingVertices(ring, color)) == Colored(ring, color)
  {
  }

  /** The vertices of a figure are the coloured corners it is meant to contribute. */
  lemma FigureVertexCorners(attrs: FigureAttributes, points: seq<Point>, outer: seq<Point>, inner: seq<Point>)
    requires |outer| == |inner|
    ensures Corners(FigureVerticesOf(attrs, points, outer, inner)) == FigureCornersOf(attrs, points, outer, inner)
  {
    if attrs.stroke {
      var extra := if attrs.fill && ColorsDiffer(attrs.fillColor, attrs.strokeColor) then RingVertices(inner, attrs.fillColor) else [];
      CornersAppend(StrokeVertices(outer, inner, attrs.strokeColor), extra);
      StrokeVertexCorners(outer, inner, attrs.strokeColor);
      RingVertexCorners(inner, attrs.fillColor);
    } else if attrs.fill {
      RingVertexCorners(points, attrs.fillColor);
    }
  }

  /** The case analysis of FigureCornersDraw, one layout at a time. */
  lemma StrokeOnlyFigureDraws(attrs: FigureAttributes, points: seq<Point>, outer: seq<Point>, inner: seq<Point>, base: nat)
    requires |points| >= 3 && |outer| == |inner| == |points|
    requires attrs.stroke && !attrs.fill
    ensures IndicesWithin(FigureTriangles(attrs, base, |points|), base,
                          base + |FigureCornersOf(attrs, points, outer, inner)|)
    ensures Resolve(FigureCornersOf(attrs, points, outer, inner), base, FigureTriangles(attrs, base, |points|))
         == FacesDrawnOf(attrs, points, outer, inner)
  {
    assert FigureCornersOf(attrs, points, outer, inner) == Interleaved(Colored(outer, attrs.strokeColor), Colored(inner, attrs.strokeColor)) by {
      assert Interleaved(Colored(outer, attrs.strokeColor), Colored(inner, attrs.strokeColor)) + []
          == Interleaved(Colored(outer, attrs.strokeColor), Colored(inner, attrs.strokeColor));
    }
    assert FigureTriangles(attrs, base, |points|) == Ribbon(base, |points|) by {
      assert Ribbon(base, |points|) + [] == Ribbon(base, |points|);
    }
    assert FacesDrawnOf(attrs, points, outer, inner) == RingRibbon(outer, inner, attrs.strokeColor) by {
      assert RingRibbon(outer, inner, attrs.strokeColor) + [] == RingRibbon(outer, inner, attrs.strokeColor);
    }
    StrokeOnlyDraws(outer, inner, attrs.strokeColor, |points|, base);
  }

  lemma SharedFillFigureDraws(attrs: FigureAttributes, points: seq<Point>, outer: seq<Point>, inner: seq<Point>, base: nat)
    requires |points| >= 3 && |outer| == |inner| == |points|
    requires attrs.stroke && attrs.fill && !ColorsDiffer(attrs.fillColor, attrs.strokeColor)
    ensures IndicesWithin(FigureTriangles(attrs, base, |points|), base,
                          base + |FigureCornersOf(attrs, points, outer, inner)|)
    ensures Resolve(FigureCornersOf(attrs, points, outer, inner), base, FigureTriangles(attrs, base, |points|))
         == FacesDrawnOf(attrs, points, outer, inner)
  {
    assert FigureCornersOf(attrs, points, outer, inner) == Interleaved(Colored(outer, attrs.strokeColor), Colored(inner, attrs.strokeColor)) by {
      assert Interleaved(Colored(outer, attrs.strokeColor), Colored(inner, attrs.strokeColor)) + []
          == Interleaved(Colored(outer, attrs.strokeColor), Colored(inner, attrs.strokeColor));
    }
    assert FigureTriangles(attrs, base, |points|) == Ribbon(base, |points|) + Fan(base + 1, 2, |points|) by {
      assert Fan(base + 1, 2, |points|) + [] == Fan(base + 1, 2, |points|);
    }
    assert FacesDrawnOf(attrs, points, outer, inner)
        == RingRibbon(outer, inner, attrs.strokeColor) + RingFan(inner, attrs.strokeColor) by {
      assert RingFan(inner, attrs.strokeColor) + [] == RingFan(inner, attrs.strokeColor);
    }
    SharedFillDraws(outer, inner, attrs.strokeColor, |points|, base);
  }

  lemma SeparateFillFigureDraws(attrs: FigureAttributes, points: seq<Point>, outer: seq<Point>, inner: seq<Point>, base: nat)
    requires |points| >= 3 && |outer| == |inner| == |points|
    requires attrs.stroke && attrs.fill && ColorsDiffer(attrs.fillColor, attrs.strokeColor)
    ensures IndicesWithin(FigureTriangles(attrs, base, |points|), base,
                          base + |FigureCornersOf(attrs, points, outer, inner)|)
    ensures Resolve(FigureCornersOf(attrs, points, outer, inner), base, FigureTriangles(attrs, base, |points|))
         == FacesDrawnOf(attrs, points, outer, inner)
  {
    assert IndicesWithin(FigureTriangles(attrs, base, |points|), base,
                         base + |FigureCornersOf(attrs, points, outer, inner)|)
        && Resolve(FigureCornersOf(attrs, points, outer, inner), base, FigureTriangles(attrs, base, |points|))
        == FacesDrawnOf(attrs, points, outer, inner) by {
      assert FigureCornersOf(attrs, points, outer, inner)
          == Interleaved(Colored(outer, attrs.strokeColor), Colored(inner, attrs.strokeColor)) + Colored(inner, attrs.fillColor);
      AppendTwice(Ribbon(base, |points|), Fan(base + 1, 2, |points|), Fan(base + 2 * |points|, 1, |points|));
      assert FigureTriangles(attrs, base, |points|)
          == Ribbon(base, |points|) + Fan(base + 1, 2, |points|) + Fan(base + 2 * |points|, 1, |points|);
      AppendTwice(RingRibbon(outer, inner, attrs.strokeColor), RingFan(inner, attrs.strokeColor), RingFan(inner, attrs.fillColor));
      assert FacesDrawnOf(attrs, points, outer, inner)
          == RingRibbon(outer, inner, attrs.strokeColor) + RingFan(inner, attrs.strokeColor) + RingFan(inner, attrs.fillColor);
      SharedFillDraws(outer, inner, attrs.strokeColor, |points|, base);
      FillOnlyDraws(inner, attrs.fillColor, base + 2 * |points|);
      DrawsConcat(Interleaved(Colored(outer, attrs.strokeColor), Colored(inner, attrs.strokeColor)),
                  Ribbon(base, |points|) + Fan(base + 1, 2, |points|),
                  RingRibbon(outer, inner, attrs.strokeColor) + RingFan(inner, attrs.strokeColor),
                  Colored(inner, attrs.fillColor), Fan(base + 2 * |points|, 1, |points|),
                  RingFan(inner, attrs.fillColor), base);
    }
  }

  lemma FillOnlyFigureDraws(attrs: FigureAttributes, points: seq<Point>, outer: seq<Point>, inner: seq<Point>, base: nat)
    requires |points| >= 3 && |outer| == |inner| == |points|
    requires !attrs.stroke && attrs.fill
    ensures IndicesWithin(FigureTriangles(attrs, base, |points|), base,
                          base + |FigureCornersOf(attrs, points, outer, inner)|)
    ensures Resolve(FigureCornersOf(attrs, points, outer, inner), base, FigureTriangles(attrs, base, |points|))
         == FacesDrawnOf(attrs, points, outer, inner)
  {
    FillOnlyDraws(points, attrs.fillColor, base);
  }

  /**
   * A closed figure's triangles only use the figure's own corners, and looked up in them
   * they draw the faces FacesDrawnOf describes, in every one of the four layouts.
   */
  lemma FigureCornersDraw(attrs: FigureAttributes, points: seq<Point>, outer: seq<Point>, inner: seq<Point>, base: nat)
    requires |points| >= 3 && |outer| == |inner| == |points|
    ensures IndicesWithin(FigureTriangles(attrs, base, |points|), base,
                          base + |FigureCornersOf(attrs, points, outer, inner)|)
    ensures Resolve(FigureCornersOf(attrs, points, outer, inner), base, FigureTriangles(attrs, base, |points|))
         == FacesDrawnOf(attrs, points, outer, inner)
  {
    if attrs.stroke && !attrs.fill {
      StrokeOnlyFigureDraws(attrs, points, outer, inner, base);
    } else if attrs.stroke && ColorsDiffer(attrs.fillColor, attrs.strokeColor) {
      SeparateFillFigureDraws(attrs, points, outer, inner, base);
    } else if attrs.stroke {
      SharedFillFigureDraws(attrs, points, outer, inner, base);
    } else if attrs.fill {
      FillOnlyFigureDraws(attrs, points, outer, inner, base);
    }
  }

  /**
   * Appending a figure to a mesh whose indices are in range keeps them in range, and the
   * mesh then draws what it drew before followed by the figure's faces.
   */
  lemma MeshGrows(vertices: seq<MeshVertexAndColor>, indices: seq<MeshTriangleIndices>,
                  attrs: FigureAttributes, points: seq<Point>, outer: seq<Point>, inner: seq<Point>)
    requires |points| >= 3 && |outer| == |inner| == |points|
    requires IndicesWithin(indices, 0, |vertices|)
    ensures IndicesWithin(indices + FigureTriangles(attrs, |vertices|, |points|),
                          0, |vertices + FigureVerticesOf(attrs, points, outer, inner)|)
    ensures Resolve(Corners(vertices + FigureVerticesOf(attrs, points, outer, inner)), 0,
                    indices + FigureTriangles(attrs, |vertices|, |points|))
         == Resolve(Corners(vertices), 0, indices) + FacesDrawnOf(attrs, points, outer, inner)
  {
    FigureVertexCorners(attrs, points, outer, inner);
    FigureCornersDraw(attrs, points, outer, inner, |vertices|);
    VerticesAppend(vertices, indices, FigureVerticesOf(attrs, points, outer, inner),
                   FigureTriangles(attrs, |vertices|, |points|), FacesDrawnOf(attrs, points, outer, inner));
  }

  /**
   * Appending vertices and triangles that index only the appended vertices, counted from
   * the old vertex count, appends their faces to what the mesh draws.
   */
  lemma VerticesAppend(vertices: seq<MeshVertexAndColor>, indices: seq<MeshTriangleIndices>,
                       added: seq<MeshVertexAndColor>, tris: seq<MeshTriangleIndices>, faces: seq<Face>)
    requires IndicesWithin(indices, 0, |vertices|)
    requires IndicesWithin(tris, |vertices|, |vertices| + |Corners(added)|)
    requires Resolve(Corners(added), |vertices|, tris) == faces
    ensures IndicesWithin(indices + tris, 0, |vertices + added|)
    ensures Resolve(Corners(vertices + added), 0, indices + tris) == Resolve(Corners(vertices), 0, indices) + faces
  {
    CornersAppend(vertices, added);
    ResolveComposes(Corners(vertices), indices, Corners(added), tris, 0);
  }

  /** MeshGrows for the rings of the inline offset. */
  lemma FigureGrowsMesh(vertices: seq<MeshVertexAndColor>, indices: seq<MeshTriangleIndices>,
                        attrs: FigureAttributes, points: seq<Point>, length: Vector2 -> real)
    requires |points| >= 3
    requires IndicesWithin(indices, 0, |vertices|)
    ensures IndicesWithin(indices + FigureTriangles(attrs, |vertices|, |points|),
                          0, |vertices + FigureVertices(attrs, points, length)|)
    ensures Resolve(Corners(vertices + FigureVertices(attrs, points, length)), 0,
                    indices + FigureTriangles(attrs, |vertices|, |points|))
         == Resolve(Corners(vertices), 0, indices) + FacesDrawn(attrs, points, length)
  {
    MeshGrows(vertices, indices, attrs, points, StrokeOuterRing(points, attrs.strokeThickness, length),
              StrokeInnerRing(points, attrs.strokeThickness, length));
  }

  // ---------------------------------------------------------------------------
  // One step of each CloseFigure loop

  lemma StrokeVerticesSnoc(outer: seq<Point>, inner: seq<Point>, i: nat, color: MeshColor)
    requires i < |outer| == |inner|
    ensures StrokeVertices(outer[..i + 1], inner[..i + 1], color)
         == StrokeVertices(outer[..i], inner[..i], color) + [VertexOf(outer[i], color), VertexOf(inner[i], color)]
  {
    var before := StrokeVertices(outer[..i], inner[..i], color);
    var after := StrokeVertices(outer[..i + 1], inner[..i + 1], color);
    var extended := before + [VertexOf(outer[i], color), VertexOf(inner[i], color)];
    forall k | 0 <= k < 2 * i + 2
      ensures after[k] == extended[k]
    {
      if k < 2 * i {
        assert k / 2 < i;
      } else {
        assert k / 2 == i;
      }
    }
  }

  lemma RingVerticesSnoc(ring: seq<Point>, i: nat, color: MeshColor)
    requires i < |ring|
    ensures RingVertices(ring[..i + 1], color) == RingVertices(ring[..i], color) + [VertexOf(ring[i], color)]
  {
  }

  // ---------------------------------------------------------------------------
  // The builder

  /**
   * Accumulates closed figures into one vertex list and one triangle list. Figures are
   * described by BeginFigure, AddPoint and CloseFigure; Build hands out what has been
   * accumulated and empties the lists. The stroke rings of the last stroked figure stay in
   * two cache lists that are reused between figures.
   */
  class PathMeshBuilder {
    var figureStroke: bool
    var figureFill: bool
    var figureStrokeColor: MeshColor
    var figureFillColor: MeshColor
    var figureStrokeThickness: real
    var figurePoints: seq<Point>

    var finalVerticesAndColors: seq<MeshVertexAndColor>
    var finalIndices: seq<MeshTriangleIndices>

    var innerPointsCache: seq<Point>
    var outerPointsCache: seq<Point>

    /** The square-root vector length Math.Sqrt computes. */
    const length: Vector2 -> real

    /** Every accumulated triangle indexes an accumulated vertex, and the ring caches pair up point by point. */
    ghost predicate Valid()
      reads this`finalVerticesAndColors, this`finalIndices, this`innerPointsCache, this`outerPointsCache
    {
      && IndicesWithin(finalIndices, 0, |finalVerticesAndColors|)
      && |outerPointsCache| == |innerPointsCache|
    }

    /** The attributes BeginFigure stored for the pending figure. */
    function Attributes(): FigureAttributes
      reads this`figureStroke, this`figureFill, this`figureStrokeColor, this`figureFillColor, this`figureStrokeThickness
    {
      FigureAttributes(figureStroke, figureFill, figureStrokeColor, figureFillColor, figureStrokeThickness)
    }

    /** The faces the accumulated mesh draws. */
    ghost function Drawn(): seq<Face>
      reads this`finalVerticesAndColors, this`finalIndices
      requires IndicesWithin(finalIndices, 0, |finalVerticesAndColors|)
    {
      Resolve(Corners(finalVerticesAndColors), 0, finalIndices)
    }

    /** A new builder: no pending figure, an empty mesh, the attribute fields at their defaults. */
    constructor (length: Vector2 -> real)
      ensures Valid()
      ensures this.length == length
      ensures Attributes() == FigureAttributes(false, false, MeshColor(0, 0, 0, 0), MeshColor(0, 0, 0, 0), 0.0)
      ensures figurePoints == [] && innerPointsCache == [] && outerPointsCache == []
      ensures finalVerticesAndColors == [] && finalIndices == []
      ensures Drawn() == []
    {
      this.length := length;
      figureStroke := false;
      figureFill := false;
      figureStrokeColor := MeshColor(0, 0, 0, 0);
      figureFillColor := MeshColor(0, 0, 0, 0);
      figureStrokeThickness := 0.0;
      figurePoints := [];
      finalVerticesAndColors := [];
      finalIndices := [];
      innerPointsCache := [];
      outerPointsCache := [];
    }

    /** Stores the attributes of a new figure and discards any pending points; the mesh is untouched. */
    method BeginFigure(stroke: bool, fill: bool, strokeColor: MeshColor, fillColor: MeshColor, strokeThickness: real)
      modifies this`figureStroke, this`figureFill, this`figureStrokeColor, this`figureFillColor,
               this`figureStrokeThickness, this`figurePoints
      ensures Attributes() == FigureAttributes(stroke, fill, strokeColor, fillColor, strokeThickness)
      ensures figurePoints == []
    {
      figureStroke := stroke;
      figureFill := fill;
      figureStrokeColor := strokeColor;
      figureFillColor := fillColor;
      figureStrokeThickness := strokeThickness;
      figurePoints := [];
    }

    /** Appends one point to the pending figure. */
    method AddPoint(x: real, y: real)
      modifies this`figurePoints
      ensures figurePoints == old(figurePoints) + [Point(x, y)]
    {
      figurePoints := figurePoints + [Point(x, y)];
    }

    /**
     * Closes the pending figure. With fewer than 3 points it does nothing at all, and the
     * points stay pending. Otherwise it appends the figure's vertices and triangles
     * (indexed from the vertex count before the call), so that the mesh draws what it drew
     * before followed by the figure's faces, keeps the stroke rings in the caches when
     * stroked, and clears the pending points.
     */
    method CloseFigure()
      requires Valid()
      modifies this`finalVerticesAndColors, this`finalIndices, this`figurePoints,
               this`innerPointsCache, this`outerPointsCache
      ensures Valid()
      ensures |old(figurePoints)| < 3 ==>
        && finalVerticesAndColors == old(finalVerticesAndColors) && finalIndices == old(finalIndices)
        && figurePoints == old(figurePoints)
      ensures |old(figurePoints)| >= 3 ==>
        && finalVerticesAndColors == old(finalVerticesAndColors) + FigureVertices(Attributes(), old(figurePoints), length)
        && finalIndices == old(finalIndices)
             + FigureTriangles(Attributes(), |old(finalVerticesAndColors)|, |old(figurePoints)|)
        && Drawn() == old(Drawn()) + FacesDrawn(Attributes(), old(figurePoints), length)
        && figurePoints == []
      ensures if |old(figurePoints)| >= 3 && figureStroke then
                && outerPointsCache == StrokeOuterRing(old(figurePoints), figureStrokeThickness, length)
                && innerPointsCache == StrokeInnerRing(old(figurePoints), figureStrokeThickness, length)
              else
                outerPointsCache == old(outerPointsCache) && innerPointsCache == old(innerPointsCache)
    {
      if |figurePoints| < 3 {
        return;
      }
      AppendFigure();
      figurePoints := [];
    }

    /** CloseFigure for a figure of at least 3 points, before the pending points are cleared. */
    method AppendFigure()
      requires Valid() && |figurePoints| >= 3
      modifies this`finalVerticesAndColors, this`finalIndices, this`innerPointsCache, this`outerPointsCache
      ensures Valid()
      ensures finalVerticesAndColors == old(finalVerticesAndColors) + FigureVertices(Attributes(), figurePoints, length)
      ensures finalIndices
           == old(finalIndices) + FigureTriangles(Attributes(), |old(finalVerticesAndColors)|, |figurePoints|)
      ensures Drawn() == old(Drawn()) + FacesDrawn(Attributes(), figurePoints, length)
      ensures if figureStroke then
                && outerPointsCache == StrokeOuterRing(figurePoints, figureStrokeThickness, length)
                && innerPointsCache == StrokeInnerRing(figurePoints, figureStrokeThickness, length)
              else
                outerPointsCache == old(outerPointsCache) && innerPointsCache == old(innerPointsCache)
    {
      AppendFigureParts();
      CachedRingsVertices(Attributes(), figurePoints, length, outerPointsCache, innerPointsCache);
      FigureGrowsMesh(old(finalVerticesAndColors), old(finalIndices), Attributes(), figurePoints, length);
    }

    /** The vertices, triangles and stroke rings of AppendFigure, layout by layout. */
    method AppendFigureParts()
      requires |figurePoints| >= 3 && |outerPointsCache| == |innerPointsCache|
      modifies this`finalVerticesAndColors, this`finalIndices, this`innerPointsCache, this`outerPointsCache
      ensures |outerPointsCache| == |innerPointsCache|
      ensures finalVerticesAndColors
           == old(finalVerticesAndColors) + FigureVerticesOf(Attributes(), figurePoints, outerPointsCache, innerPointsCache)
      ensures finalIndices
           == old(finalIndices) + FigureTriangles(Attributes(), |old(finalVerticesAndColors)|, |figurePoints|)
      ensures if figureStroke then
                && outerPointsCache == StrokeOuterRing(figurePoints, figureStrokeThickness, length)
                && innerPointsCache == StrokeInnerRing(figurePoints, figureStrokeThickness, length)
              else
                outerPointsCache == old(outerPointsCache) && innerPointsCache == old(innerPointsCache)
    {
      if figureStroke {
        ComputeStrokeRings();
        AppendStroke();
      } else {
        AppendUnstroked();
      }
    }

    /** The stroked case of AppendFigureParts, once the caches hold the rings: the layout over them. */
    method AppendStroke()
      requires |figurePoints| >= 3 && figureStroke
      requires |outerPointsCache| == |innerPointsCache| == |figurePoints|
      modifies this`finalVerticesAndColors, this`finalIndices
      ensures finalVerticesAndColors
           == old(finalVerticesAndColors) + FigureVerticesOf(Attributes(), figurePoints, outerPointsCache, innerPointsCache)
      ensures finalIndices
           == old(finalIndices) + FigureTriangles(Attributes(), |old(finalVerticesAndColors)|, |figurePoints|)
    {
      AppendStrokedFigure(|finalVerticesAndColors|);
    }

    /** The unstroked cases of AppendFigureParts: the fill alone, or nothing. */
    method AppendUnstroked()
      requires |figurePoints| >= 3 && !figureStroke && |outerPointsCache| == |innerPointsCache|
      modifies this`finalVerticesAndColors, this`finalIndices
      ensures finalVerticesAndColors
           == old(finalVerticesAndColors) + FigureVerticesOf(Attributes(), figurePoints, outerPointsCache, innerPointsCache)
      ensures finalIndices
           == old(finalIndices) + FigureTriangles(Attributes(), |old(finalVerticesAndColors)|, |figurePoints|)
    {
      if figureFill {
        AppendFilledFigure();
      } else {
        assert FigureTriangles(Attributes(), |finalVerticesAndColors|, |figurePoints|) == [];
      }
    }

    /** Clears the caches, tests the winding and fills the caches with the two stroke rings. */
    method ComputeStrokeRings()
      modifies this`innerPointsCache, this`outerPointsCache
      ensures |outerPointsCache| == |innerPointsCache| == |figurePoints|
      ensures outerPointsCache == StrokeOuterRing(figurePoints, figureStrokeThickness, length)
      ensures innerPointsCache == StrokeInnerRing(figurePoints, figureStrokeThickness, length)
    {
      innerPointsCache := [];
      outerPointsCache := [];
      var isClockwise := IsClockwise(figurePoints);
      AppendStrokeRings(isClockwise);
      assert [] + OuterRingOf(figurePoints, figureStrokeThickness, isClockwise, length)
          == OuterRingOf(figurePoints, figureStrokeThickness, isClockwise, length);
      assert [] + InnerRingOf(figurePoints, figureStrokeThickness, isClockwise, length)
          == InnerRingOf(figurePoints, figureStrokeThickness, isClockwise, length);
    }

    /** CloseFigure's offset loop: appends the outer and inner ring points of every point to the caches. */
    method AppendStrokeRings(isClockwise: bool)
      modifies this`innerPointsCache, this`outerPointsCache
      ensures outerPointsCache == old(outerPointsCache) + OuterRingOf(figurePoints, figureStrokeThickness, isClockwise, length)
      ensures innerPointsCache == old(innerPointsCache) + InnerRingOf(figurePoints, figureStrokeThickness, isClockwise, length)
    {
      ghost var outerStart := outerPointsCache;
      ghost var innerStart := innerPointsCache;
      var i := 0;
      while i < |figurePoints|
        invariant 0 <= i <= |figurePoints|
        invariant outerPointsCache == outerStart + OuterRingOf(figurePoints, figureStrokeThickness, isClockwise, length)[..i]
        invariant innerPointsCache == innerStart + InnerRingOf(figurePoints, figureStrokeThickness, isClockwise, length)[..i]
      {
        AppendJoin(i, isClockwise);
        TakeSnoc(OuterRingOf(figurePoints, figureStrokeThickness, isClockwise, length), i);
        TakeSnoc(InnerRingOf(figurePoints, figureStrokeThickness, isClockwise, length), i);
        AppendTwice(outerStart, OuterRingOf(figurePoints, figureStrokeThickness, isClockwise, length)[..i],
                    [OuterRingOf(figurePoints, figureStrokeThickness, isClockwise, length)[i]]);
        AppendTwice(innerStart, InnerRingOf(figurePoints, figureStrokeThickness, isClockwise, length)[..i],
                    [InnerRingOf(figurePoints, figureStrokeThickness, isClockwise, length)[i]]);
        i := i + 1;
      }
      assert OuterRingOf(figurePoints, figureStrokeThickness, isClockwise, length)[..|figurePoints|]
          == OuterRingOf(figurePoints, figureStrokeThickness, isClockwise, length);
      assert InnerRingOf(figurePoints, figureStrokeThickness, isClockwise, length)[..|figurePoints|]
          == InnerRingOf(figurePoints, figureStrokeThickness, isClockwise, length);
    }

    /** One iteration of the offset loop: the outer and inner ring points of point i. */
    method AppendJoin(i: nat, isClockwise: bool)
      requires i < |figurePoints|
      modifies this`innerPointsCache, this`outerPointsCache
      ensures outerPointsCache == old(outerPointsCache) + [OuterRingOf(figurePoints, figureStrokeThickness, isClockwise, length)[i]]
      ensures innerPointsCache == old(innerPointsCache) + [InnerRingOf(figurePoints, figureStrokeThickness, isClockwise, length)[i]]
    {
      var prevIndex, nextIndex := Neighbours(i, |figurePoints|);
      var outer, inner := OffsetJoin(figurePoints[prevIndex], figurePoints[i], figurePoints[nextIndex],
                                     isClockwise, figureStrokeThickness, length);
      RingPointsAt(figurePoints, i, prevIndex, nextIndex, figureStrokeThickness, isClockwise, length);
      outerPointsCache := outerPointsCache + [outer];
      innerPointsCache := innerPointsCache + [inner];
    }

    /**
     * The stroked part of AppendFigure, once the stroke rings are in the caches: the stroke
     * vertices and ribbon, then the fill.
     */
    method AppendStrokedFigure(baseIndex: nat)
      requires |figurePoints| >= 3 && figureStroke
      requires |outerPointsCache| == |innerPointsCache| == |figurePoints|
      requires baseIndex == |finalVerticesAndColors|
      modifies this`finalVerticesAndColors, this`finalIndices
      ensures finalVerticesAndColors
           == old(finalVerticesAndColors) + FigureVerticesOf(Attributes(), figurePoints, outerPointsCache, innerPointsCache)
      ensures finalIndices == old(finalIndices) + FigureTriangles(Attributes(), baseIndex, |figurePoints|)
    {
      if !figureFill {
        AppendStrokeOnly(baseIndex);
      } else if ColorsDiffer(figureFillColor, figureStrokeColor) {
        AppendSeparateFilledStroke(baseIndex);
      } else {
        AppendSharedFilledStroke(baseIndex);
      }
    }

    method AppendStrokeOnly(baseIndex: nat)
      requires |figurePoints| >= 3 && figureStroke && !figureFill
      requires |outerPointsCache| == |innerPointsCache| == |figurePoints|
      requires baseIndex == |finalVerticesAndColors|
      modifies this`finalVerticesAndColors, this`finalIndices
      ensures finalVerticesAndColors
           == old(finalVerticesAndColors) + FigureVerticesOf(Attributes(), figurePoints, outerPointsCache, innerPointsCache)
      ensures finalIndices == old(finalIndices) + FigureTriangles(Attributes(), baseIndex, |figurePoints|)
    {
      AppendStrokeVertices(outerPointsCache, innerPointsCache, figureStrokeColor);
      AppendRibbon(baseIndex, |figurePoints|);
      assert Ribbon(baseIndex, |figurePoints|) + [] == Ribbon(baseIndex, |figurePoints|);
      assert StrokeVertices(outerPointsCache, innerPointsCache, figureStrokeColor) + []
          == StrokeVertices(outerPointsCache, innerPointsCache, figureStrokeColor);
    }

    method AppendSharedFilledStroke(baseIndex: nat)
      requires |figurePoints| >= 3 && figureStroke && figureFill
      requires !ColorsDiffer(figureFillColor, figureStrokeColor)
      requires |outerPointsCache| == |innerPointsCache| == |figurePoints|
      requires baseIndex == |finalVerticesAndColors|
      modifies this`finalVerticesAndColors, this`finalIndices
      ensures finalVerticesAndColors
           == old(finalVerticesAndColors) + FigureVerticesOf(Attributes(), figurePoints, outerPointsCache, innerPointsCache)
      ensures finalIndices == old(finalIndices) + FigureTriangles(Attributes(), baseIndex, |figurePoints|)
    {
      AppendStrokeVertices(outerPointsCache, innerPointsCache, figureStrokeColor);
      AppendRibbon(baseIndex, |figurePoints|);
      AppendFan(baseIndex + 1, 2, |figurePoints|);
      assert Fan(baseIndex + 1, 2, |figurePoints|) + [] == Fan(baseIndex + 1, 2, |figurePoints|);
      AppendTwice(old(finalIndices), Ribbon(baseIndex, |figurePoints|), Fan(baseIndex + 1, 2, |figurePoints|));
      assert StrokeVertices(outerPointsCache, innerPointsCache, figureStrokeColor) + []
          == StrokeVertices(outerPointsCache, innerPointsCache, figureStrokeColor);
    }

    /**
     * A stroke filled in another colour: the fan over the inner ring's stroke vertices,
     * then the inner ring again in the fill colour and the fan over that copy.
     */
    method AppendSeparateFilledStroke(baseIndex: nat)
      requires |figurePoints| >= 3 && figureStroke && figureFill
      requires ColorsDiffer(figureFillColor, figureStrokeColor)
      requires |outerPointsCache| == |innerPointsCache| == |figurePoints|
      requires baseIndex == |finalVerticesAndColors|
      modifies this`finalVerticesAndColors, this`finalIndices
      ensures finalVerticesAndColors
           == old(finalVerticesAndColors) + FigureVerticesOf(Attributes(), figurePoints, outerPointsCache, innerPointsCache)
      ensures finalIndices == old(finalIndices) + FigureTriangles(Attributes(), baseIndex, |figurePoints|)
    {
      AppendStrokeVertices(outerPointsCache, innerPointsCache, figureStrokeColor);
      AppendRibbon(baseIndex, |figurePoints|);
      AppendFan(baseIndex + 1, 2, |figurePoints|);
      var colorFillBaseIndex := |finalVerticesAndColors|;
      AppendRingVertices(innerPointsCache, figureFillColor);
      AppendFan(colorFillBaseIndex, 1, |figurePoints|);
      AppendTwice(old(finalVerticesAndColors), StrokeVertices(outerPointsCache, innerPointsCache, figureStrokeColor),
                  RingVertices(innerPointsCache, figureFillColor));
      AppendTwice(Ribbon(baseIndex, |figurePoints|), Fan(baseIndex + 1, 2, |figurePoints|),
                  Fan(baseIndex + 2 * |figurePoints|, 1, |figurePoints|));
      AppendTwice(old(finalIndices) + Ribbon(baseIndex, |figurePoints|), Fan(baseIndex + 1, 2, |figurePoints|),
                  Fan(baseIndex + 2 * |figurePoints|, 1, |figurePoints|));
      AppendTwice(old(finalIndices), Ribbon(baseIndex, |figurePoints|),
                  Fan(baseIndex + 1, 2, |figurePoints|) + Fan(baseIndex + 2 * |figurePoints|, 1, |figurePoints|));
    }

    /** The fill-only part of AppendFigure: the points themselves in the fill colour, and their fan. */
    method AppendFilledFigure()
      requires |figurePoints| >= 3 && !figureStroke && figureFill && |outerPointsCache| == |innerPointsCache|
      modifies this`finalVerticesAndColors, this`finalIndices
      ensures finalVerticesAndColors
           == old(finalVerticesAndColors) + FigureVerticesOf(Attributes(), figurePoints, outerPointsCache, innerPointsCache)
      ensures finalIndices
           == old(finalIndices) + FigureTriangles(Attributes(), |old(finalVerticesAndColors)|, |figurePoints|)
    {
      var baseIndex := |finalVerticesAndColors|;
      AppendRingVertices(figurePoints, figureFillColor);
      AppendFan(baseIndex, 1, |figurePoints|);
    }

    /** Hands out the accumulated mesh as two new arrays, in order, and empties the builder's lists. */
    method Build() returns (verticesAndColors: array<MeshVertexAndColor>, indices: array<MeshTriangleIndices>)
      requires Valid()
      modifies this`finalVerticesAndColors, this`finalIndices
      ensures Valid()
      ensures fresh(verticesAndColors) && fresh(indices)
      ensures verticesAndColors[..] == old(finalVerticesAndColors) && indices[..] == old(finalIndices)
      ensures finalVerticesAndColors == [] && finalIndices == []
      ensures Drawn() == []
    {
      var vs := finalVerticesAndColors;
      var ts := finalIndices;
      verticesAndColors := new MeshVertexAndColor[|vs|](k requires 0 <= k < |vs| => vs[k]);
      indices := new MeshTriangleIndices[|ts|](k requires 0 <= k < |ts| => ts[k]);
      finalVerticesAndColors := [];
      finalIndices := [];
    }

    /** Outer then inner vertex of every ring point, in one colour. */
    method AppendStrokeVertices(outer: seq<Point>, inner: seq<Point>, color: MeshColor)
      requires |outer| == |inner|
      modifies this`finalVerticesAndColors
      ensures finalVerticesAndColors == old(finalVerticesAndColors) + StrokeVertices(outer, inner, color)
    {
      ghost var start := finalVerticesAndColors;
      var i := 0;
      while i < |outer|
        invariant 0 <= i <= |outer|
        invariant finalVerticesAndColors == start + StrokeVertices(outer[..i], inner[..i], color)
      {
        StrokeVerticesSnoc(outer, inner, i, color);
        finalVerticesAndColors := finalVerticesAndColors + [VertexOf(outer[i], color)];
        finalVerticesAndColors := finalVerticesAndColors + [VertexOf(inner[i], color)];
        i := i + 1;
      }
      assert outer[..|outer|] == outer && inner[..|inner|] == inner;
    }

    /** One vertex per ring point, in one colour. */
    method AppendRingVertices(ring: seq<Point>, color: MeshColor)
      modifies this`finalVerticesAndColors
      ensures finalVerticesAndColors == old(finalVerticesAndColors) + RingVertices(ring, color)
    {
      ghost var start := finalVerticesAndColors;
      var i := 0;
      while i < |ring|
        invariant 0 <= i <= |ring|
        invariant finalVerticesAndColors == start + RingVertices(ring[..i], color)
      {
        RingVerticesSnoc(ring, i, color);
        finalVerticesAndColors := finalVerticesAndColors + [VertexOf(ring[i], color)];
        i := i + 1;
      }
      assert ring[..|ring|] == ring;
    }

    /** The two triangles of every stroke quad. */
    method AppendRibbon(baseIndex: nat, count: nat)
      requires count > 0
      modifies this`finalIndices
      ensures finalIndices == old(finalIndices) + Ribbon(baseIndex, count)
    {
      ghost var start := finalIndices;
      var i := 0;
      while i < count
        invariant 0 <= i <= count
        invariant finalIndices == start + Ribbon(baseIndex, count)[..2 * i]
      {
        var next := (i + 1) % count;
        var outerCurrent := baseIndex + i * 2;
        var innerCurrent := baseIndex + i * 2 + 1;
        var outerNext := baseIndex + next * 2;
        var innerNext := baseIndex + next * 2 + 1;
        RibbonStep(baseIndex, count, i);
        finalIndices := finalIndices + [MeshTriangleIndices(outerCurrent, innerCurrent, innerNext)];
        finalIndices := finalIndices + [MeshTriangleIndices(outerCurrent, innerNext, outerNext)];
        i := i + 1;
      }
      assert Ribbon(baseIndex, count)[..2 * count] == Ribbon(baseIndex, count);
    }

    /** The fan of count - 2 triangles over vertices `step` apart from `first`. */
    method AppendFan(first: nat, step: nat, count: nat)
      requires count >= 2
      modifies this`finalIndices
      ensures finalIndices == old(finalIndices) + Fan(first, step, count)
    {
      ghost var start := finalIndices;
      var i := 1;
      while i < count - 1
        invariant 1 <= i <= count - 1
        invariant finalIndices == start + Fan(first, step, count)[..i - 1]
      {
        FanStep(first, step, count, i);
        finalIndices := finalIndices + [MeshTriangleIndices(first, first + i * step, first + (i + 1) * step)];
        i := i + 1;
      }
      assert Fan(first, step, count)[..count - 2] == Fan(first, step, count);
    }
  }
}
