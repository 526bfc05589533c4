/**
 * Points, colours, triangle indices and the polygon geometry that both path mesh
 * builders share: the shoelace orientation sum and the miter offset of a closed
 * polygon's stroke outline.
 *
 * The source works in 32-bit floats; here every coordinate is a real, and the one
 * operation reals cannot express exactly, the Euclidean length of a vector (a square
 * root), is a parameter `length` constrained only by IsLength.
 */
module Geometry {

  /** A 2-D point; it also plays the role of a Vector2. */
  datatype Point = Point(x: real, y: real)

  type Vector2 = Point

  const Zero: Vector2 := Point(0.0, 0.0)

  function Add(a: Vector2, b: Vector2): Vector2 { Point(a.x + b.x, a.y + b.y) }

  function Sub(a: Vector2, b: Vector2): Vector2 { Point(a.x - b.x, a.y - b.y) }

  function Neg(a: Vector2): Vector2 { Point(-a.x, -a.y) }

  function Scale(a: Vector2, k: real): Vector2 { Point(a.x * k, a.y * k) }

  function Div(a: Vector2, d: real): Vector2
    requires d != 0.0
  {
    Point(a.x / d, a.y / d)
  }

  function Midpoint(a: Point, b: Point): Point { Point((a.x + b.x) / 2.0, (a.y + b.y) / 2.0) }

  /** An unsigned 8-bit colour channel. */
  type Byte = b: int | 0 <= b < 256

  datatype MeshColor = MeshColor(r: Byte, g: Byte, b: Byte, a: Byte)

  /** The channel-by-channel comparison both builders use to decide whether fill needs its own vertices. */
  predicate ColorsDiffer(fill: MeshColor, stroke: MeshColor)
  {
    fill.r != stroke.r || fill.g != stroke.g || fill.b != stroke.b || fill.a != stroke.a
  }

  /** Three indices into the cumulative vertex list (uint in the source). */
  datatype MeshTriangleIndices = MeshTriangleIndices(first: nat, second: nat, third: nat)

  /** A vertex as a renderer sees it: where it is and what colour it carries. */
  datatype Corner = Corner(position: Point, color: MeshColor)

  /** A triangle resolved to its three coloured corners. */
  datatype Face = Face(a: Corner, b: Corner, c: Corner)

  /** The attributes BeginFigure records for the figure being built. */
  datatype FigureAttributes = FigureAttributes(
    stroke: bool, fill: bool, strokeColor: MeshColor, fillColor: MeshColor, strokeThickness: real)

  // ---------------------------------------------------------------------------
  // Sums of reals

  /** The sum of s, accumulated from the front as the source's loops do. */
  function Sum(s: seq<real>): real
  {
    if s == [] then 0.0 else Sum(s[..|s| - 1]) + s[|s| - 1]
  }

  lemma {:induction false} SumAppend(a: seq<real>, b: seq<real>)
    ensures Sum(a + b) == Sum(a) + Sum(b)
  {
    if b != [] {
      assert (a + b)[..|a + b| - 1] == a + b[..|b| - 1];
      SumAppend(a, b[..|b| - 1]);
    } else {
      assert a + b == a;
    }
  }

  /** Extending a prefix by one element adds that element to the running sum. */
  lemma SumPrefixStep(s: seq<real>, i: nat)
    requires i < |s|
    ensures Sum(s[..i + 1]) == Sum(s[..i]) + s[i]
  {
    assert s[..i + 1][..i] == s[..i];
  }

  function Negated(s: seq<real>): (r: seq<real>)
    ensures |r| == |s|
  {
    seq(|s|, k requires 0 <= k < |s| => -s[k])
  }

  function Reversed<T>(s: seq<T>): (r: seq<T>)
    ensures |r| == |s|
  {
    seq(|s|, k requires 0 <= k < |s| => s[|s| - 1 - k])
  }

  lemma {:induction false} SumNegated(s: seq<real>)
    ensures Sum(Negated(s)) == -Sum(s)
  {
    if s != [] {
      assert Negated(s)[..|s| - 1] == Negated(s[..|s| - 1]);
      SumNegated(s[..|s| - 1]);
    }
  }

  lemma {:induction false} SumReversed(s: seq<real>)
    ensures Sum(Reversed(s)) == Sum(s)
  {
    if s != [] {
      var init := s[..|s| - 1];
      assert Reversed(s) == [s[|s| - 1]] + Reversed(init);
      SumAppend([s[|s| - 1]], Reversed(init));
      assert Sum([s[|s| - 1]]) == s[|s| - 1] by {
        assert [s[|s| - 1]][..0] == [];
      }
      SumReversed(init);
    }
  }

  // ---------------------------------------------------------------------------
  // Winding: the shoelace sum over the closed polygon

  /** The contribution of the edge current -> next: (next.x - current.x) * (next.y + current.y). */
  function EdgeTerm(current: Point, next: Point): real
  {
    (next.x - current.x) * (next.y + current.y)
  }

  /** The edge terms of the closed polygon, the last edge wrapping back to the first point. */
  function Terms(points: seq<Point>): (t: seq<real>)
    ensures |t| == |points|
  {
    seq(|points|, k requires 0 <= k < |points| => EdgeTerm(points[k], points[NextIndex(k, |points|)]))
  }

  /**
   * The signed shoelace sum. Positive means clockwise when y grows upwards, so on a
   * y-down screen a positive sum is a visually counter-clockwise polygon.
   */
  function Shoelace(points: seq<Point>): real
  {
    Sum(Terms(points))
  }

  lemma EdgeTermDegenerate(a: Point)
    ensures EdgeTerm(a, a) == 0.0
  {
    assert a.x - a.x == 0.0;
  }

  lemma EdgeTermReversed(a: Point, b: Point)
    ensures EdgeTerm(b, a) == -EdgeTerm(a, b)
  {
    assert (a.x - b.x) * (a.y + b.y) == -((b.x - a.x) * (b.y + a.y));
  }

  /** A polygon of fewer than three points encloses nothing: its shoelace sum is zero. */
  lemma ShoelaceOfShortPolygon(points: seq<Point>)
    requires |points| < 3
    ensures Shoelace(points) == 0.0
  {
    var t := Terms(points);
    if |points| == 1 {
      assert t[0] == EdgeTerm(points[0], points[0]);
      EdgeTermDegenerate(points[0]);
      assert t[..0] == [];
      assert Sum(t) == Sum(t[..0]) + t[0];
    } else if |points| == 2 {
      EdgeTermReversed(points[0], points[1]);
      assert t == [EdgeTerm(points[0], points[1]), EdgeTerm(points[1], points[0])];
      assert t[..1][..0] == [];
      assert Sum(t[..1]) == t[0];
      assert Sum(t) == Sum(t[..1]) + t[1];
    }
  }

  /**
   * The orientation the sum reports: the unit square with corner o, listed up its left
   * side, along its top, then down its right side, turns clockwise with y pointing up
   * (counter-clockwise on a y-down screen), and its sum is 2.
   */
  lemma ShoelaceOfUnitSquare(o: Point)
    ensures Shoelace([o, Point(o.x, o.y + 1.0), Point(o.x + 1.0, o.y + 1.0), Point(o.x + 1.0, o.y)]) == 2.0
    ensures Clockwise([o, Point(o.x, o.y + 1.0), Point(o.x + 1.0, o.y + 1.0), Point(o.x + 1.0, o.y)])
  {
    var square := [o, Point(o.x, o.y + 1.0), Point(o.x + 1.0, o.y + 1.0), Point(o.x + 1.0, o.y)];
    var t := Terms(square);
    assert t[0] == 0.0;
    assert t[1] == 2.0 * o.y + 2.0;
    assert t[2] == 0.0;
    assert t[3] == -2.0 * o.y;
    assert Sum(t[..1]) == 0.0 by { assert t[..1][..0] == []; }
    assert Sum(t[..2]) == t[1] by { assert t[..2][..1] == t[..1]; }
    assert Sum(t[..3]) == t[1] by { assert t[..3][..2] == t[..2]; }
    assert Sum(t) == t[1] + t[3] by { assert t[..3] == t[..|t| - 1]; }
  }

  /** The polygon started at point r instead of point 0. */
  function Rotated(points: seq<Point>, r: nat): seq<Point>
    requires r <= |points|
  {
    points[r..] + points[..r]
  }

  lemma RotatedTerms(points: seq<Point>, r: nat)
    requires r < |points|
    ensures Terms(Rotated(points, r)) == Terms(points)[r..] + Terms(points)[..r]
  {
    var n := |points|;
    var q := Rotated(points, r);
    var t := Terms(points);
    forall k | 0 <= k < n
      ensures Terms(q)[k] == (t[r..] + t[..r])[k]
    {
      var k1 := NextIndex(k, n);
      if k + r + 1 < n {
        assert q[k] == points[k + r] && q[k1] == points[k + r + 1];
      } else if k + r + 1 == n {
        assert q[k] == points[n - 1];
        if r == 0 {
          assert k1 == 0 && q[0] == points[0];
        } else {
          assert k1 == k + 1 && q[k1] == points[0];
        }
      } else {
        assert q[k] == points[k + r - n];
        if k + 1 < n {
          assert q[k1] == points[k + r - n + 1];
        } else {
          assert k1 == 0 && q[0] == points[r];
        }
      }
    }
  }

  /** The orientation test does not depend on which point the polygon starts at. */
  lemma ShoelaceRotationInvariant(points: seq<Point>, r: nat)
    requires r < |points|
    ensures Shoelace(Rotated(points, r)) == Shoelace(points)
  {
    var t := Terms(points);
    RotatedTerms(points, r);
    SumAppend(t[r..], t[..r]);
    SumAppend(t[..r], t[r..]);
    assert t[..r] + t[r..] == t;
  }

  /** Walking the polygon backwards negates the shoelace sum, so a non-degenerate polygon flips orientation. */
  lemma ShoelaceReversalNegates(points: seq<Point>)
    ensures Shoelace(Reversed(points)) == -Shoelace(points)
  {
    var n := |points|;
    if n > 0 {
      var t := Terms(points);
      var q := Reversed(points);
      var head := t[..n - 1];
      forall k | 0 <= k < n
        ensures Terms(q)[k] == (Negated(Reversed(head)) + [-t[n - 1]])[k]
      {
        if k < n - 1 {
          EdgeTermReversed(points[n - 2 - k], points[n - 1 - k]);
        } else {
          EdgeTermReversed(points[n - 1], points[0]);
        }
      }
      assert Terms(q) == Negated(Reversed(head)) + [-t[n - 1]];
      SumAppend(Negated(Reversed(head)), [-t[n - 1]]);
      assert [-t[n - 1]][..0] == [];
      SumNegated(Reversed(head));
      SumReversed(head);
      assert t[..n - 1] == head;
    }
  }

  // ---------------------------------------------------------------------------
  // Stroke outline: miter offsets

  /**
   * What the model assumes of the vector length the source computes with a square
   * root: non-zero for every non-zero vector (so that normalising divides by a non-zero
   * number) and the same for v and -v. Nothing proved here needs more of it.
   */
  ghost predicate IsLength(length: Vector2 -> real)
  {
    (forall v :: v != Zero ==> length(v) != 0.0) &&
    (forall v {:trigger length(Neg(v))} :: length(Neg(v)) == length(v))
  }

  /** Vector2.Normalize: the vector divided by its length. */
  function Normalize(v: Vector2, length: Vector2 -> real): Vector2
    requires v != Zero && IsLength(length)
  {
    Div(v, length(v))
  }

  /** An edge direction as the stroke uses it: normalised unless it is the zero vector, which stays zero. */
  function UnitOrZero(v: Vector2, length: Vector2 -> real): Vector2
    requires IsLength(length)
  {
    if v == Zero then v else Normalize(v, length)
  }

  /** The left-hand perpendicular (-y, x). */
  function LeftNormal(v: Vector2): Vector2 { Point(-v.y, v.x) }

  /** The edge normal, negated for a polygon that is not clockwise so that it points outwards. */
  function Outward(normal: Vector2, clockwise: bool): Vector2
  {
    if clockwise then normal else Neg(normal)
  }

  /** The index before i on the closed polygon of n points. */
  function PrevIndex(i: nat, n: nat): (r: nat)
    requires i < n
    ensures r < n
  {
    if i == 0 then n - 1 else i - 1
  }

  /** The index after i on the closed polygon of n points. */
  function NextIndex(i: nat, n: nat): (r: nat)
    requires i < n
    ensures r < n
  {
    if i + 1 < n then i + 1 else 0
  }

  /** The source's (i + count - 1) % count is PrevIndex. */
  lemma PrevIndexIsMod(i: nat, n: nat)
    requires i < n
    ensures (i + n - 1) % n == PrevIndex(i, n)
  {
  }

  /** The source's (i + 1) % count is NextIndex. */
  lemma NextIndexIsMod(i: nat, n: nat)
    requires i < n
    ensures (i + 1) % n == NextIndex(i, n)
  {
  }

  /** The outward unit normal of the edge arriving at point i. */
  function PrevNormal(points: seq<Point>, i: nat, clockwise: bool, length: Vector2 -> real): Vector2
    requires i < |points| && IsLength(length)
  {
    var prev := points[PrevIndex(i, |points|)];
    Outward(LeftNormal(UnitOrZero(Sub(points[i], prev), length)), clockwise)
  }

  /** The outward unit normal of the edge leaving point i. */
  function NextNormal(points: seq<Point>, i: nat, clockwise: bool, length: Vector2 -> real): Vector2
    requires i < |points| && IsLength(length)
  {
    var next := points[NextIndex(i, |points|)];
    Outward(LeftNormal(UnitOrZero(Sub(next, points[i]), length)), clockwise)
  }

  /** Below this bisector length the join falls back to the incoming edge's normal. */
  const BisectorThreshold: real := 0.0001

  /**
   * The miter offset of one join for a stroke of the given thickness: along the normalised
   * bisector of the two edge normals, scaled by half the thickness and by 1 / (|bisector| / 2);
   * when the bisector is (nearly) zero, the incoming normal scaled by half the thickness.
   */
  function MiterOffset(prevNormal: Vector2, nextNormal: Vector2, thickness: real,
                       length: Vector2 -> real): Vector2
  {
    var halfThickness := thickness / 2.0;
    var bisector := Add(prevNormal, nextNormal);
    var len := length(bisector);
    if len > BisectorThreshold then
      var sinHalfAngle := len / 2.0;
      var offsetFactor := if sinHalfAngle != 0.0 then 1.0 / sinHalfAngle else 1.0;
      Scale(Scale(Div(bisector, len), halfThickness), offsetFactor)
    else
      Scale(prevNormal, halfThickness)
  }

  /** The offset applied at point i of the polygon. */
  function StrokeOffset(points: seq<Point>, i: nat, thickness: real, clockwise: bool,
                        length: Vector2 -> real): Vector2
    requires i < |points| && IsLength(length)
  {
    MiterOffset(PrevNormal(points, i, clockwise, length), NextNormal(points, i, clockwise, length),
                thickness, length)
  }

  /** Whether the stroke treats the polygon as clockwise. */
  predicate Clockwise(points: seq<Point>)
  {
    Shoelace(points) > 0.0
  }

  /** The offsets of all points of the polygon, index-aligned with it. */
  function Offsets(points: seq<Point>, thickness: real, length: Vector2 -> real): (r: seq<Vector2>)
    requires IsLength(length)
    ensures |r| == |points|
  {
    seq(|points|, i requires 0 <= i < |points| => StrokeOffset(points, i, thickness, Clockwise(points), length))
  }

  /** Each point moved by its offset. */
  function Displaced(points: seq<Point>, offsets: seq<Vector2>): (r: seq<Point>)
    requires |offsets| == |points|
    ensures |r| == |points|
  {
    seq(|points|, i requires 0 <= i < |points| => Add(points[i], offsets[i]))
  }

  /** Each point moved against its offset. */
  function Retracted(points: seq<Point>, offsets: seq<Vector2>): (r: seq<Point>)
    requires |offsets| == |points|
    ensures |r| == |points|
  {
    seq(|points|, i requires 0 <= i < |points| => Sub(points[i], offsets[i]))
  }

  /** The outer ring of the stroke outline: each point moved by its offset. */
  function OuterRing(points: seq<Point>, thickness: real, length: Vector2 -> real): (r: seq<Point>)
    requires IsLength(length)
    ensures |r| == |points|
  {
    Displaced(points, Offsets(points, thickness, length))
  }

  /** The inner ring of the stroke outline: each point moved against its offset. */
  function InnerRing(points: seq<Point>, thickness: real, length: Vector2 -> real): (r: seq<Point>)
    requires IsLength(length)
    ensures |r| == |points|
  {
    Retracted(points, Offsets(points, thickness, length))
  }

  /** Extending the prefix by one point adds that point moved by, and against, its offset. */
  lemma DisplacedSnoc(points: seq<Point>, offsets: seq<Vector2>, i: nat)
    requires |offsets| == |points| && i < |points|
    ensures Displaced(points[..i+1], offsets[..i+1]) == Displaced(points[..i], offsets[..i]) + [Add(points[i], offsets[i])]
    ensures Retracted(points[..i+1], offsets[..i+1]) == Retracted(points[..i], offsets[..i]) + [Sub(points[i], offsets[i])]
  {
  }

  /** Moving a point by +offset and by -offset gives two points whose midpoint is the point. */
  lemma MirroredAbout(p: Point, offset: Vector2)
    ensures Midpoint(Add(p, offset), Sub(p, offset)) == p
  {
  }

  /** Displacing and retracting by the same offsets gives two rings mirrored through the points, point by point. */
  lemma DisplacedRetractedMirrored(points: seq<Point>, offsets: seq<Vector2>)
    requires |offsets| == |points|
    ensures forall i :: 0 <= i < |points| ==>
      Midpoint(Displaced(points, offsets)[i], Retracted(points, offsets)[i]) == points[i]
  {
    forall i | 0 <= i < |points|
      ensures Midpoint(Displaced(points, offsets)[i], Retracted(points, offsets)[i]) == points[i]
    {
      MirroredAbout(points[i], offsets[i]);
    }
  }

  /** Outer and inner rings are index-aligned with the input and mirrored through it, point by point. */
  lemma RingsMirrored(points: seq<Point>, thickness: real, length: Vector2 -> real)
    requires IsLength(length)
    ensures forall i :: 0 <= i < |points| ==>
      Midpoint(OuterRing(points, thickness, length)[i], InnerRing(points, thickness, length)[i]) == points[i]
  {
    DisplacedRetractedMirrored(points, Offsets(points, thickness, length));
  }

  /** Negating both edge normals negates the miter offset, in both branches. */
  lemma MiterOffsetOdd(prevNormal: Vector2, nextNormal: Vector2, thickness: real,
                       length: Vector2 -> real)
    requires IsLength(length)
    ensures MiterOffset(Neg(prevNormal), Neg(nextNormal), thickness, length)
         == Neg(MiterOffset(prevNormal, nextNormal, thickness, length))
  {
    var bisector := Add(prevNormal, nextNormal);
    assert Add(Neg(prevNormal), Neg(nextNormal)) == Neg(bisector);
    var len := length(bisector);
    assert length(Neg(bisector)) == len;
    if len > BisectorThreshold {
      var f := 1.0 / (len / 2.0);
      var u := Div(bisector, len);
      assert Div(Neg(bisector), len) == Neg(u);
      assert Scale(Scale(Neg(u), thickness / 2.0), f) == Neg(Scale(Scale(u, thickness / 2.0), f));
    } else {
      assert Scale(Neg(prevNormal), thickness / 2.0) == Neg(Scale(prevNormal, thickness / 2.0));
    }
  }

  /**
   * The offset depends on the winding only through its sign: a polygon taken to be
   * counter-clockwise is offset exactly opposite to the same polygon taken to be
   * clockwise, so the winding test decides which ring lies outside.
   */
  lemma StrokeOffsetFlipsWithWinding(points: seq<Point>, i: nat, thickness: real,
                                     length: Vector2 -> real)
    requires i < |points| && IsLength(length)
    ensures StrokeOffset(points, i, thickness, false, length)
         == Neg(StrokeOffset(points, i, thickness, true, length))
  {
    MiterOffsetOdd(PrevNormal(points, i, true, length), NextNormal(points, i, true, length),
                   thickness, length);
  }
}
