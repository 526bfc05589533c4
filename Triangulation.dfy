/**
 * The index patterns both builders emit (the closed stroke ribbon and the fill fan),
 * and what those indices mean once they are looked up in the vertex list: coloured
 * faces over the offset rings and the fill polygon.
 */
module Triangulation {
  import opened Geometry

  // ---------------------------------------------------------------------------
  // Index patterns

  /**
   * The stroke ribbon of a figure of n points whose outer and inner vertices are
   * interleaved from `base`: for every point i and next = (i + 1) mod n, the triangles
   * (base+2i, base+2i+1, base+2next+1) and (base+2i, base+2next+1, base+2next).
   */
  function Ribbon(base: nat, n: nat): (r: seq<MeshTriangleIndices>)
    requires n > 0
    ensures |r| == 2 * n
  {
    seq(2 * n, k requires 0 <= k < 2 * n =>
      var i := k / 2;
      var next := NextIndex(i, n);
      if k % 2 == 0 then MeshTriangleIndices(base + i * 2, base + i * 2 + 1, base + next * 2 + 1)
      else MeshTriangleIndices(base + i * 2, base + next * 2 + 1, base + next * 2))
  }

  /**
   * The fan over n vertices that start at `first` and lie `step` apart: for i = 1 .. n-2,
   * the triangle (first, first + i*step, first + (i+1)*step).
   */
  function Fan(first: nat, step: nat, n: nat): (r: seq<MeshTriangleIndices>)
    requires n >= 2
    ensures |r| == n - 2
  {
    seq(n - 2, t requires 0 <= t < n - 2 =>
      MeshTriangleIndices(first, first + (t + 1) * step, first + (t + 2) * step))
  }

  predicate TriangleWithin(tri: MeshTriangleIndices, lo: nat, hi: nat)
  {
    lo <= tri.first < hi && lo <= tri.second < hi && lo <= tri.third < hi
  }

  /** Every index of every triangle lies in [lo, hi). */
  predicate IndicesWithin(tris: seq<MeshTriangleIndices>, lo: nat, hi: nat)
  {
    forall k :: 0 <= k < |tris| ==> TriangleWithin(tris[k], lo, hi)
  }

  /** The triangles with every index moved up by d. */
  function Shifted(tris: seq<MeshTriangleIndices>, d: nat): (r: seq<MeshTriangleIndices>)
    ensures |r| == |tris|
  {
    seq(|tris|, k requires 0 <= k < |tris| =>
      MeshTriangleIndices(tris[k].first + d, tris[k].second + d, tris[k].third + d))
  }

  /** The ribbon only uses the 2n vertices of its own figure. */
  lemma RibbonWithin(base: nat, n: nat)
    requires n > 0
    ensures IndicesWithin(Ribbon(base, n), base, base + 2 * n)
  {
    var r := Ribbon(base, n);
    forall k | 0 <= k < 2 * n
      ensures TriangleWithin(r[k], base, base + 2 * n)
    {
      var i := k / 2;
      assert i < n;
      var next := NextIndex(i, n);
      assert next * 2 + 1 < 2 * n;
    }
  }

  /** A fan with step 1 or 2 stays within the vertices it spans. */
  lemma FanWithin(first: nat, step: nat, n: nat)
    requires n >= 2 && (step == 1 || step == 2)
    ensures IndicesWithin(Fan(first, step, n), first, first + (n - 1) * step + 1)
  {
    var f := Fan(first, step, n);
    forall t | 0 <= t < n - 2
      ensures TriangleWithin(f[t], first, first + (n - 1) * step + 1)
    {
      if step == 1 {
        assert f[t].third == first + t + 2;
      } else {
        assert f[t].third == first + (t + 2) * 2;
      }
    }
  }

  /** Moving the figure's first vertex moves every ribbon index by the same amount. */
  lemma RibbonShift(base: nat, n: nat)
    requires n > 0
    ensures Ribbon(base, n) == Shifted(Ribbon(0, n), base)
  {
  }

  lemma FanShift(first: nat, step: nat, n: nat, d: nat)
    requires n >= 2
    ensures Fan(first + d, step, n) == Shifted(Fan(first, step, n), d)
  {
  }

  lemma ShiftedAppend(a: seq<MeshTriangleIndices>, b: seq<MeshTriangleIndices>, d: nat)
    ensures Shifted(a + b, d) == Shifted(a, d) + Shifted(b, d)
  {
  }

  /** Appending in two steps is appending the concatenation. */
  lemma AppendTwice<T>(a: seq<T>, b: seq<T>, c: seq<T>)
    ensures a + b + c == a + (b + c)
  {
  }

  /** A prefix one element longer is the prefix followed by that element. */
  lemma TakeSnoc<T>(s: seq<T>, i: nat)
    requires i < |s|
    ensures s[..i + 1] == s[..i] + [s[i]]
  {
  }

  /** The two ribbon triangles of point i, with next written as the source computes it. */
  lemma RibbonStep(base: nat, n: nat, i: nat)
    requires i < n
    ensures Ribbon(base, n)[..2 * i + 2]
         == Ribbon(base, n)[..2 * i]
          + [MeshTriangleIndices(base + i * 2, base + i * 2 + 1, base + (i + 1) % n * 2 + 1),
             MeshTriangleIndices(base + i * 2, base + (i + 1) % n * 2 + 1, base + (i + 1) % n * 2)]
  {
    var r := Ribbon(base, n);
    NextIndexIsMod(i, n);
    assert (2 * i) / 2 == i && (2 * i + 1) / 2 == i;
    assert (2 * i) % 2 == 0 && (2 * i + 1) % 2 == 1;
    assert r[..2 * i + 2] == r[..2 * i] + [r[2 * i], r[2 * i + 1]];
  }

  /** The fan triangle the source emits for its loop counter i = t + 1. */
  lemma FanStep(first: nat, step: nat, n: nat, i: nat)
    requires 1 <= i < n - 1
    ensures Fan(first, step, n)[..i]
         == Fan(first, step, n)[..i - 1] + [MeshTriangleIndices(first, first + i * step, first + (i + 1) * step)]
  {
    var f := Fan(first, step, n);
    assert f[..i] == f[..i - 1] + [f[i - 1]];
  }

  // ---------------------------------------------------------------------------
  // What the indices draw

  /** The corners of a vertex list seen through its triangles, indices counted from `base`. */
  function Resolve(corners: seq<Corner>, base: nat, tris: seq<MeshTriangleIndices>): (r: seq<Face>)
    requires IndicesWithin(tris, base, base + |corners|)
    ensures |r| == |tris|
  {
    seq(|tris|, k requires 0 <= k < |tris| =>
      Face(corners[tris[k].first - base], corners[tris[k].second - base], corners[tris[k].third - base]))
  }

  /** Each point of a ring tagged with one colour. */
  function Colored(ring: seq<Point>, color: MeshColor): (r: seq<Corner>)
    ensures |r| == |ring|
  {
    seq(|ring|, j requires 0 <= j < |ring| => Corner(ring[j], color))
  }

  /** outer[0], inner[0], outer[1], inner[1], ... */
  function Interleaved(outer: seq<Corner>, inner: seq<Corner>): (r: seq<Corner>)
    requires |outer| == |inner|
    ensures |r| == 2 * |outer|
  {
    seq(2 * |outer|, k requires 0 <= k < 2 * |outer| => if k % 2 == 0 then outer[k / 2] else inner[k / 2])
  }

  /** The `count` elements of s that start at `start` and lie `step` apart. */
  function Strided(s: seq<Corner>, start: nat, step: nat, count: nat): (r: seq<Corner>)
    requires count == 0 || start + (count - 1) * step < |s|
    ensures |r| == count
  {
    seq(count, j requires 0 <= j < count => s[start + j * step])
  }

  /**
   * The band between two rings of equal length n >= 1: for each edge i -> next, the quad
   * outer[i], inner[i], inner[next], outer[next] split along the diagonal outer[i]-inner[next].
   */
  function RingRibbon(outer: seq<Point>, inner: seq<Point>, color: MeshColor): (r: seq<Face>)
    requires |outer| == |inner| > 0
    ensures |r| == 2 * |outer|
  {
    var n := |outer|;
    seq(2 * n, k requires 0 <= k < 2 * n =>
      var i := k / 2;
      var next := NextIndex(i, n);
      if k % 2 == 0 then Face(Corner(outer[i], color), Corner(inner[i], color), Corner(inner[next], color))
      else Face(Corner(outer[i], color), Corner(inner[next], color), Corner(outer[next], color)))
  }

  /** The fan of a polygon from its first point: (ring[0], ring[i], ring[i+1]) for i = 1 .. n-2. */
  function RingFan(ring: seq<Point>, color: MeshColor): (r: seq<Face>)
    requires |ring| >= 2
    ensures |r| == |ring| - 2
  {
    seq(|ring| - 2, t requires 0 <= t < |ring| - 2 =>
      Face(Corner(ring[0], color), Corner(ring[t + 1], color), Corner(ring[t + 2], color)))
  }

  /** Interleaved rings are what the ribbon indices expect: it draws the band between them. */
  lemma RibbonResolves(outer: seq<Point>, inner: seq<Point>, color: MeshColor,
                       rest: seq<Corner>, base: nat)
    requires |outer| == |inner| > 0
    ensures IndicesWithin(Ribbon(base, |outer|), base, base + |Interleaved(Colored(outer, color), Colored(inner, color)) + rest|)
    ensures Resolve(Interleaved(Colored(outer, color), Colored(inner, color)) + rest, base, Ribbon(base, |outer|))
         == RingRibbon(outer, inner, color)
  {
    var n := |outer|;
    var corners := Interleaved(Colored(outer, color), Colored(inner, color)) + rest;
    var tris := Ribbon(base, n);
    RibbonWithin(base, n);
    forall k | 0 <= k < 2 * n
      ensures Resolve(corners, base, tris)[k] == RingRibbon(outer, inner, color)[k]
    {
      var i := k / 2;
      var next := NextIndex(i, n);
      assert (i * 2) / 2 == i && (i * 2) % 2 == 0;
      assert (i * 2 + 1) / 2 == i && (i * 2 + 1) % 2 == 1;
      assert (next * 2) / 2 == next && (next * 2) % 2 == 0;
      assert (next * 2 + 1) / 2 == next && (next * 2 + 1) % 2 == 1;
    }
  }

  /** A fan over ring points laid out with a fixed stride draws the fan of that ring. */
  lemma FanResolves(corners: seq<Corner>, base: nat, first: nat, step: nat,
                    ring: seq<Point>, color: MeshColor)
    requires |ring| >= 2 && (step == 1 || step == 2) && base <= first
    requires first - base + (|ring| - 1) * step < |corners|
    requires Strided(corners, first - base, step, |ring|) == Colored(ring, color)
    ensures IndicesWithin(Fan(first, step, |ring|), base, base + |corners|)
    ensures Resolve(corners, base, Fan(first, step, |ring|)) == RingFan(ring, color)
  {
    var n := |ring|;
    var s := Strided(corners, first - base, step, n);
    FanWithin(first, step, n);
    forall t | 0 <= t < n - 2
      ensures Resolve(corners, base, Fan(first, step, n))[t] == RingFan(ring, color)[t]
    {
      assert s[0] == Corner(ring[0], color);
      assert s[t + 1] == Corner(ring[t + 1], color);
      assert s[t + 2] == Corner(ring[t + 2], color);
    }
  }

  /**
   * Meshes compose: two vertex/triangle lists, the second indexed from the first's
   * vertex count, draw the first list's faces followed by the second's.
   */
  lemma ResolveComposes(c1: seq<Corner>, t1: seq<MeshTriangleIndices>,
                        c2: seq<Corner>, t2: seq<MeshTriangleIndices>, base: nat)
    requires IndicesWithin(t1, base, base + |c1|)
    requires IndicesWithin(t2, base + |c1|, base + |c1| + |c2|)
    ensures IndicesWithin(t1 + t2, base, base + |c1 + c2|)
    ensures Resolve(c1 + c2, base, t1 + t2) == Resolve(c1, base, t1) + Resolve(c2, base + |c1|, t2)
  {
    var all := t1 + t2;
    forall k | 0 <= k < |all|
      ensures TriangleWithin(all[k], base, base + |c1 + c2|)
    {
      if k < |t1| { assert all[k] == t1[k]; } else { assert all[k] == t2[k - |t1|]; }
    }
  }

  /** ResolveComposes, with the faces of each part already known. */
  lemma DrawsConcat(c1: seq<Corner>, t1: seq<MeshTriangleIndices>, f1: seq<Face>,
                    c2: seq<Corner>, t2: seq<MeshTriangleIndices>, f2: seq<Face>, base: nat)
    requires IndicesWithin(t1, base, base + |c1|) && Resolve(c1, base, t1) == f1
    requires IndicesWithin(t2, base + |c1|, base + |c1| + |c2|) && Resolve(c2, base + |c1|, t2) == f2
    ensures IndicesWithin(t1 + t2, base, base + |c1 + c2|)
    ensures Resolve(c1 + c2, base, t1 + t2) == f1 + f2
  {
    ResolveComposes(c1, t1, c2, t2, base);
  }

  lemma ResolveAppend(corners: seq<Corner>, base: nat, t1: seq<MeshTriangleIndices>, t2: seq<MeshTriangleIndices>)
    requires IndicesWithin(t1, base, base + |corners|) && IndicesWithin(t2, base, base + |corners|)
    ensures IndicesWithin(t1 + t2, base, base + |corners|)
    ensures Resolve(corners, base, t1 + t2) == Resolve(corners, base, t1) + Resolve(corners, base, t2)
  {
    var all := t1 + t2;
    forall k | 0 <= k < |all|
      ensures TriangleWithin(all[k], base, base + |corners|)
    {
      if k < |t1| { assert all[k] == t1[k]; } else { assert all[k] == t2[k - |t1|]; }
    }
  }

  /** Indices that fit below one bound fit below any larger one. */
  lemma IndicesWithinWiden(tris: seq<MeshTriangleIndices>, lo: nat, hi: nat, lo': nat, hi': nat)
    requires IndicesWithin(tris, lo, hi) && lo' <= lo && hi <= hi'
    ensures IndicesWithin(tris, lo', hi')
  {
  }

  /** A stroke without fill: the ribbon over the interleaved rings draws the band between them. */
  lemma StrokeOnlyDraws(outer: seq<Point>, inner: seq<Point>, color: MeshColor, n: nat, base: nat)
    requires |outer| == |inner| == n >= 3
    ensures IndicesWithin(Ribbon(base, n), base, base + |Interleaved(Colored(outer, color), Colored(inner, color))|)
    ensures Resolve(Interleaved(Colored(outer, color), Colored(inner, color)), base, Ribbon(base, n))
         == RingRibbon(outer, inner, color)
  {
    var band := Interleaved(Colored(outer, color), Colored(inner, color));
    assert band + [] == band;
    RibbonResolves(outer, inner, color, [], base);
  }

  /**
   * A stroke filled in its own colour: the fan over the inner ring's stroke vertices
   * (from base + 1, stride 2) draws the inner ring's fan.
   */
  lemma SharedFillDraws(outer: seq<Point>, inner: seq<Point>, color: MeshColor, n: nat, base: nat)
    requires |outer| == |inner| == n >= 3
    ensures IndicesWithin(Ribbon(base, n) + Fan(base + 1, 2, n), base,
                          base + |Interleaved(Colored(outer, color), Colored(inner, color))|)
    ensures Resolve(Interleaved(Colored(outer, color), Colored(inner, color)), base,
                    Ribbon(base, n) + Fan(base + 1, 2, n))
         == RingRibbon(outer, inner, color) + RingFan(inner, color)
  {
    var band := Interleaved(Colored(outer, color), Colored(inner, color));
    StrokeOnlyDraws(outer, inner, color, n, base);
    assert Strided(band, 1, 2, n) == Colored(inner, color);
    FanResolves(band, base, base + 1, 2, inner, color);
    ResolveAppend(band, base, Ribbon(base, n), Fan(base + 1, 2, n));
  }

  /**
   * A stroke filled in another colour: the inner ring is repeated in the fill colour after
   * the stroke vertices, and the fan over that copy (stride 1) draws the inner ring's fan.
   */
  lemma SeparateFillDraws(outer: seq<Point>, inner: seq<Point>, strokeColor: MeshColor, fillColor: MeshColor,
                          n: nat, base: nat)
    requires |outer| == |inner| == n >= 3
    ensures IndicesWithin(Ribbon(base, n) + Fan(base + 2 * n, 1, n), base,
                          base + |Interleaved(Colored(outer, strokeColor), Colored(inner, strokeColor)) + Colored(inner, fillColor)|)
    ensures Resolve(Interleaved(Colored(outer, strokeColor), Colored(inner, strokeColor)) + Colored(inner, fillColor),
                    base, Ribbon(base, n) + Fan(base + 2 * n, 1, n))
         == RingRibbon(outer, inner, strokeColor) + RingFan(inner, fillColor)
  {
    var band := Interleaved(Colored(outer, strokeColor), Colored(inner, strokeColor));
    var fill := Colored(inner, fillColor);
    StrokeOnlyDraws(outer, inner, strokeColor, n, base);
    assert IndicesWithin(Fan(base + 2 * n, 1, n), base + |band|, base + |band| + |fill|)
        && Resolve(fill, base + |band|, Fan(base + 2 * n, 1, n)) == RingFan(inner, fillColor) by {
      assert Strided(fill, 0, 1, n) == fill;
      FanResolves(fill, base + 2 * n, base + 2 * n, 1, inner, fillColor);
    }
    DrawsConcat(band, Ribbon(base, n), RingRibbon(outer, inner, strokeColor),
                fill, Fan(base + 2 * n, 1, n), RingFan(inner, fillColor), base);
  }

  /** A fill alone: the fan over the points draws the polygon's fan in the fill colour. */
  lemma FillOnlyDraws(points: seq<Point>, color: MeshColor, base: nat)
    requires |points| >= 3
    ensures IndicesWithin(Fan(base, 1, |points|), base, base + |Colored(points, color)|)
    ensures Resolve(Colored(points, color), base, Fan(base, 1, |points|)) == RingFan(points, color)
  {
    var corners := Colored(points, color);
    assert Strided(corners, 0, 1, |points|) == corners;
    FanResolves(corners, base, base, 1, points, color);
  }

  // ---------------------------------------------------------------------------
  // What one closed figure is meant to put into the mesh

  /**
   * The coloured corners a closed figure contributes, given its outer and inner stroke
   * rings: for a stroke, the two rings interleaved in the stroke colour, followed, when the
   * figure is also filled in a different colour, by the inner ring again in the fill
   * colour; for a fill alone, the points themselves in the fill colour; otherwise nothing.
   */
  function FigureCornersOf(attrs: FigureAttributes, points: seq<Point>, outer: seq<Point>, inner: seq<Point>): seq<Corner>
    requires |outer| == |inner|
  {
    if attrs.stroke then
      Interleaved(Colored(outer, attrs.strokeColor), Colored(inner, attrs.strokeColor))
        + (if attrs.fill && ColorsDiffer(attrs.fillColor, attrs.strokeColor) then Colored(inner, attrs.fillColor) else [])
    else if attrs.fill then Colored(points, attrs.fillColor)
    else []
  }

  /**
   * The faces a closed figure is meant to draw, given its stroke rings: the band between
   * the rings in the stroke colour, then the fill, in the fill colour, as a fan of the
   * inner ring (when stroked) or of the points themselves (when not).
   */
  function FigureFacesOf(attrs: FigureAttributes, points: seq<Point>, outer: seq<Point>, inner: seq<Point>): seq<Face>
    requires |points| >= 3 && |outer| == |inner| == |points|
  {
    if attrs.stroke then
      RingRibbon(outer, inner, attrs.strokeColor) + (if attrs.fill then RingFan(inner, attrs.fillColor) else [])
    else if attrs.fill then RingFan(points, attrs.fillColor)
    else []
  }

  /** The corners of a closed figure, with the rings of its stroke outline. */
  function FigureCorners(attrs: FigureAttributes, points: seq<Point>, length: Vector2 -> real): seq<Corner>
    requires IsLength(length)
  {
    FigureCornersOf(attrs, points, OuterRing(points, attrs.strokeThickness, length),
                    InnerRing(points, attrs.strokeThickness, length))
  }

  /** The faces of a closed figure of at least 3 points, with the rings of its stroke outline. */
  function FigureFaces(attrs: FigureAttributes, points: seq<Point>, length: Vector2 -> real): seq<Face>
    requires |points| >= 3 && IsLength(length)
  {
    FigureFacesOf(attrs, points, OuterRing(points, attrs.strokeThickness, length),
                  InnerRing(points, attrs.strokeThickness, length))
  }
}
