/**
 * The library path mesh builder (LibDxPathRendering): a SIMD-blocked winding test,
 * PolygonStroke, and the PathMeshBuilder that accumulates figures into one mesh.
 */
module LibDxPathRendering {
  import opened Geometry
  import opened Triangulation

  /** The library's flat vertex record: a position and four colour channels. */
  datatype MeshVertexAndColor = MeshVertexAndColor(x: real, y: real, r: Byte, g: Byte, b: Byte, a: Byte)

  function VertexOf(p: Point, c: MeshColor): MeshVertexAndColor
  {
    MeshVertexAndColor(p.x, p.y, c.r, c.g, c.b, c.a)
  }

  function CornerOf(v: MeshVertexAndColor): Corner
  {
    Corner(Point(v.x, v.y), MeshColor(v.r, v.g, v.b, v.a))
  }

  /** The vertex list as positions and colours. */
  function Corners(vs: seq<MeshVertexAndColor>): (r: seq<Corner>)
    ensures |r| == |vs|
  {
    seq(|vs|, k requires 0 <= k < |vs| => CornerOf(vs[k]))
  }

  lemma CornersAppend(a: seq<MeshVertexAndColor>, b: seq<MeshVertexAndColor>)
    ensures Corners(a + b) == Corners(a) + Corners(b)
  {
  }

  /** CloseFigure either succeeds or throws InvalidOperationException. */
  datatype Outcome = Pass | Fail(message: string)

  // ---------------------------------------------------------------------------
  // IsClockwise: the shoelace sum, computed in SIMD blocks

  /**
   * Vector<float>.Count, the number of float lanes of the hardware vector; each block
   * holds Count / 2 points, one per even lane, the odd lanes padded with zeros.
   */
  predicate ValidLaneCount(laneCount: nat)
  {
    laneCount >= 2 && laneCount % 2 == 0
  }

  /** Vector.Subtract, Vector.Add and Vector.Multiply, lane by lane. */
  function LaneSubtract(a: seq<real>, b: seq<real>): (r: seq<real>)
    requires |a| == |b|
    ensures |r| == |a|
  {
    seq(|a|, k requires 0 <= k < |a| => a[k] - b[k])
  }

  function LaneAdd(a: seq<real>, b: seq<real>): (r: seq<real>)
    requires |a| == |b|
    ensures |r| == |a|
  {
    seq(|a|, k requires 0 <= k < |a| => a[k] + b[k])
  }

  function LaneMultiply(a: seq<real>, b: seq<real>): (r: seq<real>)
    requires |a| == |b|
    ensures |r| == |a|
  {
    seq(|a|, k requires 0 <= k < |a| => a[k] * b[k])
  }

  lemma {:induction false} SumLaneAdd(a: seq<real>, b: seq<real>)
    requires |a| == |b|
    ensures Sum(LaneAdd(a, b)) == Sum(a) + Sum(b)
  {
    if a != [] {
      var m := |a| - 1;
      assert LaneAdd(a, b)[..m] == LaneAdd(a[..m], b[..m]);
      SumLaneAdd(a[..m], b[..m]);
    }
  }

  /** The lanes of one block's product vector: edge term i + k/2 in even lane k, zero in odd lanes. */
  function BlockLanes(t: seq<real>, i: nat, vectorSize: nat): (r: seq<real>)
    requires i + vectorSize <= |t|
    ensures |r| == 2 * vectorSize
  {
    seq(2 * vectorSize, k requires 0 <= k < 2 * vectorSize => if k % 2 == 0 then t[i + k / 2] else 0.0)
  }

  /** The zero-padded odd lanes add nothing: a block's lanes sum to its edge terms. */
  lemma {:induction false} SumBlockLanes(t: seq<real>, i: nat, vectorSize: nat)
    requires i + vectorSize <= |t|
    ensures Sum(BlockLanes(t, i, vectorSize)) == Sum(t[i..i + vectorSize])
  {
    if vectorSize > 0 {
      var w := vectorSize - 1;
      var lanes := BlockLanes(t, i, vectorSize);
      assert lanes[..2 * w + 1][..2 * w] == BlockLanes(t, i, w);
      assert lanes[..2 * w + 1] == lanes[..|lanes| - 1];
      assert lanes[2 * w] == t[i + w];
      SumBlockLanes(t, i, w);
      assert t[i..i + vectorSize][..w] == t[i..i + w];
    }
  }

  /** Lanes 2m and 2m + 1 of the four scratch buffers hold point i + m, its successor, and zero padding. */
  ghost predicate LanesLoaded(points: seq<Point>, i: nat, m: nat,
                              xCurrent: seq<real>, yCurrent: seq<real>, xNext: seq<real>, yNext: seq<real>)
  {
    i + m < |points| &&
    2 * m + 1 < |xCurrent| && 2 * m + 1 < |yCurrent| &&
    2 * m + 1 < |xNext| && 2 * m + 1 < |yNext| &&
    var current := points[i + m];
    var next := points[NextIndex(i + m, |points|)];
    xCurrent[2 * m] == current.x && yCurrent[2 * m] == current.y &&
    xNext[2 * m] == next.x && yNext[2 * m] == next.y &&
    xCurrent[2 * m + 1] == 0.0 && yCurrent[2 * m + 1] == 0.0 &&
    xNext[2 * m + 1] == 0.0 && yNext[2 * m + 1] == 0.0
  }

  /** Writing point i + j, its successor and the padding into lanes 2j and 2j + 1 loads one more pair of lanes. */
  lemma LoadLanes(points: seq<Point>, i: nat, j: nat, offset: nat, current: Point, next: Point,
                  xCurrent: seq<real>, yCurrent: seq<real>, xNext: seq<real>, yNext: seq<real>,
                  xCurrent': seq<real>, yCurrent': seq<real>, xNext': seq<real>, yNext': seq<real>)
    requires i + j < |points| && current == points[i + j] && next == points[NextIndex(i + j, |points|)]
    requires offset == 2 * j
    requires offset + 1 < |xCurrent| && offset + 1 < |yCurrent| && offset + 1 < |xNext| && offset + 1 < |yNext|
    requires xCurrent' == xCurrent[offset := current.x][offset + 1 := 0.0]
    requires yCurrent' == yCurrent[offset := current.y][offset + 1 := 0.0]
    requires xNext' == xNext[offset := next.x][offset + 1 := 0.0]
    requires yNext' == yNext[offset := next.y][offset + 1 := 0.0]
    requires forall m :: 0 <= m < j ==> LanesLoaded(points, i, m, xCurrent, yCurrent, xNext, yNext)
    ensures forall m :: 0 <= m < j + 1 ==> LanesLoaded(points, i, m, xCurrent', yCurrent', xNext', yNext')
  {
    forall m | 0 <= m < j + 1
      ensures LanesLoaded(points, i, m, xCurrent', yCurrent', xNext', yNext')
    {
      if m < j {
        assert LanesLoaded(points, i, m, xCurrent, yCurrent, xNext, yNext);
      }
    }
  }

  /** Buffers loaded as LanesLoaded describes multiply out to the block's edge terms, padded with zeros. */
  lemma LoadedProduct(points: seq<Point>, i: nat, vectorSize: nat,
                      xCurrent: seq<real>, yCurrent: seq<real>, xNext: seq<real>, yNext: seq<real>)
    requires i + vectorSize <= |points|
    requires |xCurrent| == |yCurrent| == |xNext| == |yNext| == 2 * vectorSize
    requires forall m :: 0 <= m < vectorSize ==> LanesLoaded(points, i, m, xCurrent, yCurrent, xNext, yNext)
    ensures LaneMultiply(LaneSubtract(xNext, xCurrent), LaneAdd(yNext, yCurrent)) == BlockLanes(Terms(points), i, vectorSize)
  {
    var product := LaneMultiply(LaneSubtract(xNext, xCurrent), LaneAdd(yNext, yCurrent));
    forall k | 0 <= k < 2 * vectorSize
      ensures product[k] == BlockLanes(Terms(points), i, vectorSize)[k]
    {
      assert LanesLoaded(points, i, k / 2, xCurrent, yCurrent, xNext, yNext);
    }
  }

  /**
   * One block of IsClockwise: loads points i .. i + vectorSize - 1 and their successors
   * into the even lanes of four scratch buffers, zeroes the odd lanes, and multiplies
   * lane by lane; the product holds the block's edge terms in its even lanes.
   */
  method BlockProduct(points: seq<Point>, i: nat, vectorSize: nat, laneCount: nat) returns (vProduct: seq<real>)
    requires laneCount == 2 * vectorSize && i + vectorSize <= |points|
    ensures vProduct == BlockLanes(Terms(points), i, vectorSize)
  {
    var count := |points|;
    ghost var t := Terms(points);
    var xCurrent := new real[laneCount](_ => 0.0);
    var yCurrent := new real[laneCount](_ => 0.0);
    var xNext := new real[laneCount](_ => 0.0);
    var yNext := new real[laneCount](_ => 0.0);

    var j := 0;
    while j < vectorSize
      invariant 0 <= j <= vectorSize
      invariant forall m :: 0 <= m < j ==> LanesLoaded(points, i, m, xCurrent[..], yCurrent[..], xNext[..], yNext[..])
    {
      var idx := i + j;
      var current := points[idx];
      NextIndexIsMod(idx, count);
      var next := points[(idx + 1) % count];

      var offset := j * 2;
      ghost var before := (xCurrent[..], yCurrent[..], xNext[..], yNext[..]);
      xCurrent[offset] := current.x;
      yCurrent[offset] := current.y;
      xNext[offset] := next.x;
      yNext[offset] := next.y;

      xCurrent[offset + 1] := 0.0;
      yCurrent[offset + 1] := 0.0;
      xNext[offset + 1] := 0.0;
      yNext[offset + 1] := 0.0;
      LoadLanes(points, i, j, offset, current, next, before.0, before.1, before.2, before.3,
                xCurrent[..], yCurrent[..], xNext[..], yNext[..]);
      j := j + 1;
    }

    var vDiffX := LaneSubtract(xNext[..], xCurrent[..]);
    var vSumY := LaneAdd(yNext[..], yCurrent[..]);
    vProduct := LaneMultiply(vDiffX, vSumY);
    LoadedProduct(points, i, vectorSize, xCurrent[..], yCurrent[..], xNext[..], yNext[..]);
  }

  /** Adding one block's product to the accumulator extends the summed prefix of edge terms by that block. */
  lemma AccumulateBlock(sumVector: seq<real>, vProduct: seq<real>, t: seq<real>, i: nat, vectorSize: nat)
    requires i + vectorSize <= |t| && vProduct == BlockLanes(t, i, vectorSize)
    requires |sumVector| == |vProduct| && Sum(sumVector) == Sum(t[..i])
    ensures Sum(LaneAdd(sumVector, vProduct)) == Sum(t[..i + vectorSize])
  {
    SumLaneAdd(sumVector, vProduct);
    SumBlockLanes(t, i, vectorSize);
    SumAppend(t[..i], t[i..i + vectorSize]);
    assert t[..i] + t[i..i + vectorSize] == t[..i + vectorSize];
  }

  /**
   * The vectorised part of IsClockwise: accumulates the products of the whole blocks
   * below vectorizableCount lane by lane into one vector.
   */
  method SumBlocks(points: seq<Point>, vectorSize: nat, vectorizableCount: nat, laneCount: nat)
    returns (sumVector: seq<real>)
    requires laneCount == 2 * vectorSize && vectorSize > 0
    requires vectorizableCount == (|points| / vectorSize) * vectorSize
    ensures |sumVector| == laneCount
    ensures Sum(sumVector) == Sum(Terms(points)[..vectorizableCount])
  {
    ghost var t := Terms(points);
    ghost var blocks := |points| / vectorSize;
    WholeBlocks(|points|, vectorSize);
    sumVector := seq(laneCount, _ => 0.0);
    SumZeros(laneCount);

    var i := 0;
    ghost var block := 0;
    while i < vectorizableCount
      invariant i == block * vectorSize && i <= vectorizableCount
      invariant |sumVector| == laneCount
      invariant Sum(sumVector) == Sum(t[..i])
    {
      NextBlock(block, blocks, vectorSize);
      var vProduct := BlockProduct(points, i, vectorSize, laneCount);
      AccumulateBlock(sumVector, vProduct, t, i, vectorSize);
      sumVector := LaneAdd(sumVector, vProduct);
      i := i + vectorSize;
      block := block + 1;
    }

  }

  /** Adds up the lanes of the accumulated vector, one after another. */
  method SumLanes(sumVector: seq<real>) returns (sum: real)
    ensures sum == Sum(sumVector)
  {
    sum := 0.0;
    var k := 0;
    while k < |sumVector|
      invariant 0 <= k <= |sumVector|
      invariant sum == Sum(sumVector[..k])
    {
      SumPrefixStep(sumVector, k);
      sum := sum + sumVector[k];
      k := k + 1;
    }
    assert sumVector[..k] == sumVector;
  }

  /** IsClockwise's last loop: adds the edge terms of the points after the last whole block. */
  method AddRemainingTerms(points: seq<Point>, vectorizableCount: nat, blockSum: real) returns (sum: real)
    requires 0 < |points| && vectorizableCount <= |points|
    requires blockSum == Sum(Terms(points)[..vectorizableCount])
    ensures sum == Shoelace(points)
  {
    ghost var t := Terms(points);
    var count := |points|;
    sum := blockSum;
    var i := vectorizableCount;
    while i < count
      invariant vectorizableCount <= i <= count
      invariant sum == Sum(t[..i])
    {
      var current := points[i];
      var next := points[(i + 1) % count];
      assert (next.x - current.x) * (next.y + current.y) == t[i] by { NextIndexIsMod(i, count); }
      assert Sum(t[..i + 1]) == Sum(t[..i]) + t[i] by { SumPrefixStep(t, i); }
      sum := sum + (next.x - current.x) * (next.y + current.y);
      i := i + 1;
    }
    assert t[..count] == t;
  }

  /**
   * Whether the polygon winds clockwise: false for fewer than 3 points, otherwise whether
   * the wrap-around shoelace sum is positive. The sum is taken in blocks of laneCount / 2
   * points, then over the remaining points one at a time.
   */
  method IsClockwise(points: seq<Point>, laneCount: nat) returns (clockwise: bool)
    requires ValidLaneCount(laneCount)
    ensures clockwise <==> |points| >= 3 && Shoelace(points) > 0.0
  {
    if |points| < 3 {
      return false;
    }
    var count := |points|;
    var vectorSize := laneCount / 2;
    var vectorizableCount := (count / vectorSize) * vectorSize;
    WholeBlocks(count, vectorSize);

    var sumVector := SumBlocks(points, vectorSize, vectorizableCount, laneCount);
    var sum := SumLanes(sumVector);
    sum := AddRemainingTerms(points, vectorizableCount, sum);
    return sum > 0.0;
  }

  lemma {:induction false} SumZeros(n: nat)
    ensures Sum(seq(n, _ => 0.0)) == 0.0
  {
    if n > 0 {
      assert seq(n, _ => 0.0)[..n - 1] == seq(n - 1, _ => 0.0);
      SumZeros(n - 1);
    }
  }

  /** The whole blocks cover no more than the polygon. */
  lemma WholeBlocks(count: nat, vectorSize: nat)
    requires vectorSize > 0
    ensures (count / vectorSize) * vectorSize <= count
  {
  }

  /** While block * vectorSize is short of blocks * vectorSize, one more whole block fits. */
  lemma NextBlock(block: nat, blocks: nat, vectorSize: nat)
    requires vectorSize > 0 && block * vectorSize < blocks * vectorSize
    ensures (block + 1) * vectorSize <= blocks * vectorSize
    ensures (block + 1) * vectorSize == block * vectorSize + vectorSize
  {
    if block >= blocks {
      MulMonotone(blocks, block, vectorSize);
    }
    MulMonotone(block + 1, blocks, vectorSize);
  }

  lemma MulMonotone(a: nat, b: nat, c: nat)
    requires a <= b
    ensures a * c <= b * c
  {
  }

  // ---------------------------------------------------------------------------
  // PolygonStroke

  /** Entry k of the per-point arrays holds point k and the outward unit normals of its two edges. */
  ghost predicate JoinPrepared(points: seq<Point>, k: nat, clockwise: bool, length: Vector2 -> real,
                               vertices: seq<Vector2>, prevNormals: seq<Vector2>, nextNormals: seq<Vector2>)
  {
    IsLength(length) && k < |points| && k < |vertices| && k < |prevNormals| && k < |nextNormals| &&
    vertices[k] == points[k] &&
    prevNormals[k] == PrevNormal(points, k, clockwise, length) &&
    nextNormals[k] == NextNormal(points, k, clockwise, length)
  }

  /** Filling entry i of the per-point arrays prepares one more join and keeps the earlier ones. */
  lemma PrepareJoin(points: seq<Point>, i: nat, clockwise: bool, length: Vector2 -> real,
                    vertices: seq<Vector2>, prevNormals: seq<Vector2>, nextNormals: seq<Vector2>,
                    vertices': seq<Vector2>, prevNormals': seq<Vector2>, nextNormals': seq<Vector2>)
    requires IsLength(length) && i < |points| && i < |vertices| && i < |prevNormals| && i < |nextNormals|
    requires vertices' == vertices[i := points[i]]
    requires prevNormals' == prevNormals[i := PrevNormal(points, i, clockwise, length)]
    requires nextNormals' == nextNormals[i := NextNormal(points, i, clockwise, length)]
    requires forall k :: 0 <= k < i ==> JoinPrepared(points, k, clockwise, length, vertices, prevNormals, nextNormals)
    ensures forall k :: 0 <= k < i + 1 ==> JoinPrepared(points, k, clockwise, length, vertices', prevNormals', nextNormals')
  {
    forall k | 0 <= k < i + 1
      ensures JoinPrepared(points, k, clockwise, length, vertices', prevNormals', nextNormals')
    {
      if k < i {
        KeepJoin(points, k, i, clockwise, length, vertices, prevNormals, nextNormals, vertices', prevNormals', nextNormals');
      } else {
        NewJoin(points, i, clockwise, length, vertices, prevNormals, nextNormals, vertices', prevNormals', nextNormals');
      }
    }
  }

  /** Overwriting entry i leaves a join prepared at another index k as it was. */
  lemma KeepJoin(points: seq<Point>, k: nat, i: nat, clockwise: bool, length: Vector2 -> real,
                 vertices: seq<Vector2>, prevNormals: seq<Vector2>, nextNormals: seq<Vector2>,
                 vertices': seq<Vector2>, prevNormals': seq<Vector2>, nextNormals': seq<Vector2>)
    requires k != i && i < |points| && i < |vertices| && i < |prevNormals| && i < |nextNormals|
    requires JoinPrepared(points, k, clockwise, length, vertices, prevNormals, nextNormals)
    requires vertices' == vertices[i := points[i]]
    requires prevNormals' == prevNormals[i := PrevNormal(points, i, clockwise, length)]
    requires nextNormals' == nextNormals[i := NextNormal(points, i, clockwise, length)]
    ensures JoinPrepared(points, k, clockwise, length, vertices', prevNormals', nextNormals')
  {
    assert vertices'[k] == vertices[k] && prevNormals'[k] == prevNormals[k] && nextNormals'[k] == nextNormals[k];
  }

  /** Writing entry i prepares the join at i. */
  lemma NewJoin(points: seq<Point>, i: nat, clockwise: bool, length: Vector2 -> real,
                vertices: seq<Vector2>, prevNormals: seq<Vector2>, nextNormals: seq<Vector2>,
                vertices': seq<Vector2>, prevNormals': seq<Vector2>, nextNormals': seq<Vector2>)
    requires IsLength(length) && i < |points| && i < |vertices| && i < |prevNormals| && i < |nextNormals|
    requires vertices' == vertices[i := points[i]]
    requires prevNormals' == prevNormals[i := PrevNormal(points, i, clockwise, length)]
    requires nextNormals' == nextNormals[i := NextNormal(points, i, clockwise, length)]
    ensures JoinPrepared(points, i, clockwise, length, vertices', prevNormals', nextNormals')
  {
  }

  /** An edge's direction, normalised unless it is the zero vector. */
  method EdgeDirection(from: Point, to: Point, length: Vector2 -> real) returns (direction: Vector2)
    requires IsLength(length)
    ensures direction == UnitOrZero(Sub(to, from), length)
  {
    direction := Sub(to, from);
    if direction != Zero {
      direction := Normalize(direction, length);
    }
  }

  /**
   * The part of PolygonStroke's first loop that handles one edge: its direction,
   * normalised unless zero, turned into the left normal and negated when the polygon
   * is not clockwise.
   */
  method NormalOfEdge(from: Point, to: Point, isClockwise: bool, length: Vector2 -> real) returns (normal: Vector2)
    requires IsLength(length)
    ensures normal == Outward(LeftNormal(UnitOrZero(Sub(to, from), length)), isClockwise)
  {
    var direction := EdgeDirection(from, to, length);
    normal := LeftNormal(direction);
    if !isClockwise {
      normal := Neg(normal);
    }
  }

  /**
   * The second loop of PolygonStroke for one vertex: the outer and inner points, moved
   * along the normalised bisector of the two edge normals by halfThickness / (|bisector| / 2),
   * or along the incoming edge's normal by halfThickness when the bisector is (nearly) zero.
   */
  method StrokeJoin(vertex: Vector2, prevNormal: Vector2, nextNormal: Vector2, thickness: real,
                    length: Vector2 -> real)
    returns (outer: Point, inner: Point)
    ensures outer == Add(vertex, MiterOffset(prevNormal, nextNormal, thickness, length))
    ensures inner == Sub(vertex, MiterOffset(prevNormal, nextNormal, thickness, length))
  {
    var halfThickness := thickness / 2.0;
    var normal := Add(prevNormal, nextNormal);
    var len := length(normal);

    if len > BisectorThreshold {
      normal := Div(normal, len);
      var sinHalfAngle := len / 2.0;
      var offsetFactor := if sinHalfAngle != 0.0 then 1.0 / sinHalfAngle else 1.0;
      var offset := Scale(Scale(normal, halfThickness), offsetFactor);
      outer := Point(vertex.x + offset.x, vertex.y + offset.y);
      inner := Point(vertex.x - offset.x, vertex.y - offset.y);
    } else {
      outer := Point(vertex.x + prevNormal.x * halfThickness, vertex.y + prevNormal.y * halfThickness);
      inner := Point(vertex.x - prevNormal.x * halfThickness, vertex.y - prevNormal.y * halfThickness);
    }
  }

  /** The first loop of PolygonStroke: the per-point arrays of vertices and edge normals. */
  method PrepareJoins(points: seq<Point>, isClockwise: bool, length: Vector2 -> real,
                      vertices: array<Vector2>, prevNormals: array<Vector2>, nextNormals: array<Vector2>)
    requires IsLength(length)
    requires vertices.Length == prevNormals.Length == nextNormals.Length == |points|
    requires vertices != prevNormals && vertices != nextNormals && prevNormals != nextNormals
    modifies vertices, prevNormals, nextNormals
    ensures forall k :: 0 <= k < |points| ==>
      JoinPrepared(points, k, isClockwise, length, vertices[..], prevNormals[..], nextNormals[..])
  {
    var count := |points|;
    var i := 0;
    while i < count
      invariant 0 <= i <= count
      invariant forall k :: 0 <= k < i ==>
        JoinPrepared(points, k, isClockwise, length, vertices[..], prevNormals[..], nextNormals[..])
    {
      ghost var before := (vertices[..], prevNormals[..], nextNormals[..]);
      vertices[i] := Point(points[i].x, points[i].y);

      PrevIndexIsMod(i, count);
      NextIndexIsMod(i, count);
      var prevIdx := (i + count - 1) % count;
      var nextIdx := (i + 1) % count;

      prevNormals[i] := NormalOfEdge(points[prevIdx], vertices[i], isClockwise, length);
      nextNormals[i] := NormalOfEdge(vertices[i], points[nextIdx], isClockwise, length);
      PrepareJoin(points, i, isClockwise, length, before.0, before.1, before.2,
                  vertices[..], prevNormals[..], nextNormals[..]);
      i := i + 1;
    }
  }

  /** A prepared join yields the offset the stroke applies at that point. */
  lemma PreparedOffset(points: seq<Point>, k: nat, isClockwise: bool, thickness: real, length: Vector2 -> real,
                       vertices: seq<Vector2>, prevNormals: seq<Vector2>, nextNormals: seq<Vector2>)
    requires JoinPrepared(points, k, isClockwise, length, vertices, prevNormals, nextNormals)
    requires isClockwise == Clockwise(points)
    ensures vertices[k] == points[k]
    ensures Offsets(points, thickness, length)[k] == MiterOffset(prevNormals[k], nextNormals[k], thickness, length)
  {
  }

  /** The second loop of PolygonStroke: both rings, from the prepared joins. */
  method StrokeJoins(points: seq<Point>, isClockwise: bool, thickness: real, length: Vector2 -> real,
                     vertices: array<Vector2>, prevNormals: array<Vector2>, nextNormals: array<Vector2>)
    returns (innerPoints: seq<Point>, outerPoints: seq<Point>)
    requires IsLength(length) && isClockwise == Clockwise(points)
    requires forall k :: 0 <= k < |points| ==>
      JoinPrepared(points, k, isClockwise, length, vertices[..], prevNormals[..], nextNormals[..])
    ensures outerPoints == OuterRing(points, thickness, length)
    ensures innerPoints == InnerRing(points, thickness, length)
  {
    ghost var offsets := Offsets(points, thickness, length);
    innerPoints := [];
    outerPoints := [];
    var count := |points|;
    var i := 0;
    while i < count
      invariant 0 <= i <= count
      invariant outerPoints == Displaced(points[..i], offsets[..i])
      invariant innerPoints == Retracted(points[..i], offsets[..i])
    {
      PreparedOffset(points, i, isClockwise, thickness, length, vertices[..], prevNormals[..], nextNormals[..]);
      var outer, inner := StrokeJoin(vertices[i], prevNormals[i], nextNormals[i], thickness, length);
      DisplacedSnoc(points, offsets, i);
      outerPoints := outerPoints + [outer];
      innerPoints := innerPoints + [inner];
      i := i + 1;
    }
    assert points[..count] == points && offsets[..count] == offsets;
  }

  /**
   * Offsets a closed polygon into the outer and inner rings of its stroke outline. With
   * fewer than 3 points the output lists are left as they were; otherwise they are
   * cleared and receive one outer and one inner point per input point, mirrored about it.
   */
  method PolygonStroke(points: seq<Point>, outputInnerPoints: seq<Point>, outputOuterPoints: seq<Point>,
                       thickness: real, laneCount: nat, length: Vector2 -> real)
    returns (innerPoints: seq<Point>, outerPoints: seq<Point>)
    requires ValidLaneCount(laneCount) && IsLength(length)
    ensures |points| < 3 ==> innerPoints == outputInnerPoints && outerPoints == outputOuterPoints
    ensures |points| >= 3 ==> outerPoints == OuterRing(points, thickness, length)
    ensures |points| >= 3 ==> innerPoints == InnerRing(points, thickness, length)
    ensures |points| >= 3 ==> |innerPoints| == |outerPoints| == |points|
    ensures |points| >= 3 ==> forall i :: 0 <= i < |points| ==> Midpoint(outerPoints[i], innerPoints[i]) == points[i]
  {
    if |points| < 3 {
      return outputInnerPoints, outputOuterPoints;
    }
    var isClockwise := IsClockwise(points, laneCount);
    var count := |points|;
    var vertices := new Vector2[count](_ => Zero);
    var prevNormals := new Vector2[count](_ => Zero);
    var nextNormals := new Vector2[count](_ => Zero);
    PrepareJoins(points, isClockwise, length, vertices, prevNormals, nextNormals);
    assert isClockwise == Clockwise(points);
    innerPoints, outerPoints := StrokeJoins(points, isClockwise, thickness, length, vertices, prevNormals, nextNormals);
    RingsMirrored(points, thickness, length);
  }

  // ---------------------------------------------------------------------------
  // What CloseFigure appends

  /** The stroke's vertices: for each point, its outer then its inner ring point, in one colour. */
  function StrokeVertices(outer: seq<Point>, inner: seq<Point>, color: MeshColor): (r: seq<MeshVertexAndColor>)
    requires |outer| == |inner|
    ensures |r| == 2 * |outer|
  {
    seq(2 * |outer|, k requires 0 <= k < 2 * |outer| =>
      if k % 2 == 0 then VertexOf(outer[k / 2], color) else VertexOf(inner[k / 2], color))
  }

  /** One vertex per ring point, in one colour. */
  function RingVertices(ring: seq<Point>, color: MeshColor): (r: seq<MeshVertexAndColor>)
    ensures |r| == |ring|
  {
    seq(|ring|, j requires 0 <= j < |ring| => VertexOf(ring[j], color))
  }

  /**
   * The vertices CloseFigure appends for a figure of at least 3 points, given its stroke
   * rings: the interleaved rings in the stroke colour, then, for a fill of another colour,
   * the inner ring again in the fill colour; for a fill alone, the points in the fill colour.
   */
  function FigureVerticesOf(attrs: FigureAttributes, points: seq<Point>, outer: seq<Point>, inner: seq<Point>)
    : seq<MeshVertexAndColor>
    requires |outer| == |inner|
  {
    if attrs.stroke then
      StrokeVertices(outer, inner, attrs.strokeColor)
        + (if attrs.fill && ColorsDiffer(attrs.fillColor, attrs.strokeColor) then RingVertices(inner, attrs.fillColor) else [])
    else if attrs.fill then RingVertices(points, attrs.fillColor)
    else []
  }

  /** The vertices CloseFigure appends, with the rings PolygonStroke computes. */
  function FigureVertices(attrs: FigureAttributes, points: seq<Point>, length: Vector2 -> real): seq<MeshVertexAndColor>
    requires IsLength(length)
  {
    FigureVerticesOf(attrs, points, OuterRing(points, attrs.strokeThickness, length),
                     InnerRing(points, attrs.strokeThickness, length))
  }

  /** A filled stroke's layout is the stroke's vertices and ribbon followed by the fill part AppendStrokeFill appends. */
  lemma FilledStrokeAppends(vertices: seq<MeshVertexAndColor>, indices: seq<MeshTriangleIndices>,
                            attrs: FigureAttributes, points: seq<Point>, outer: seq<Point>, inner: seq<Point>, base: nat)
    requires |points| >= 3 && |outer| == |inner| == |points| && attrs.stroke && attrs.fill
    ensures vertices + StrokeVertices(outer, inner, attrs.strokeColor)
              + (if ColorsDiffer(attrs.fillColor, attrs.strokeColor) then RingVertices(inner, attrs.fillColor) else [])
         == vertices + FigureVerticesOf(attrs, points, outer, inner)
    ensures indices + Ribbon(base, |points|)
              + (if ColorsDiffer(attrs.fillColor, attrs.strokeColor) then Fan(base + 2 * |points|, 1, |points|)
                 else Fan(base + 1, 2, |points|))
         == indices + FigureTriangles(attrs, base, |points|)
  {
    var n := |points|;
    AppendTwice(indices, Ribbon(base, n),
                if ColorsDiffer(attrs.fillColor, attrs.strokeColor) then Fan(base + 2 * n, 1, n) else Fan(base + 1, 2, n));
    AppendTwice(vertices, StrokeVertices(outer, inner, attrs.strokeColor),
                if ColorsDiffer(attrs.fillColor, attrs.strokeColor) then RingVertices(inner, attrs.fillColor) else []);
  }

  /**
   * The triangles CloseFigure appends for a figure of n >= 3 points whose vertices start
   * at `base`: the ribbon, then the fill fan over the fill-coloured copy of the inner ring
   * (stride 1) or over the inner ring's stroke vertices (stride 2); for a fill alone, the
   * fan over the points.
   */
  function FigureTriangles(attrs: FigureAttributes, base: nat, n: nat): seq<MeshTriangleIndices>
    requires n >= 3
  {
    if attrs.stroke then
      Ribbon(base, n)
        + (if !attrs.fill then []
           else if ColorsDiffer(attrs.fillColor, attrs.strokeColor) then Fan(base + 2 * n, 1, n)
           else Fan(base + 1, 2, n))
    else if attrs.fill then Fan(base, 1, n)
    else []
  }

  /**
   * How many vertices and triangles one figure adds: 2n vertices and 2n triangles for the
   * stroke, n more vertices for a fill of another colour, n - 2 more triangles for a fill;
   * n vertices and n - 2 triangles for a fill alone; nothing for neither.
   */
  lemma FigureCounts(attrs: FigureAttributes, points: seq<Point>, outer: seq<Point>, inner: seq<Point>, base: nat)
    requires |points| >= 3 && |outer| == |inner| == |points|
    ensures var n := |points|;
      |FigureVerticesOf(attrs, points, outer, inner)|
        == if attrs.stroke then 2 * n + (if attrs.fill && ColorsDiffer(attrs.fillColor, attrs.strokeColor) then n else 0)
           else if attrs.fill then n else 0
    ensures var n := |points|;
      |FigureTriangles(attrs, base, n)|
        == if attrs.stroke then 2 * n + (if attrs.fill then n - 2 else 0)
           else if attrs.fill then n - 2 else 0
  {
  }

  /** The stroke vertices are the two rings interleaved, both in the stroke colour. */
  lemma StrokeVertexCorners(outer: seq<Point>, inner: seq<Point>, color: MeshColor)
    requires |outer| == |inner|
    ensures Corners(StrokeVertices(outer, inner, color)) == Interleaved(Colored(outer, color), Colored(inner, color))
  {
  }

  lemma RingVertexCorners(ring: seq<Point>, color: MeshColor)
    ensures Corners(RingVertices(ring, color)) == Colored(ring, color)
  {
  }

  /** The vertices of a figure are the coloured corners it is meant to contribute. */
  lemma FigureVertexCorners(attrs: FigureAttributes, points: seq<Point>, outer: seq<Point>, inner: seq<Point>)
    requires |outer| == |inner|
    ensures Corners(FigureVerticesOf(attrs, points, outer, inner)) == FigureCornersOf(attrs, points, outer, inner)
  {
    if attrs.stroke {
      var extra := if attrs.fill && ColorsDiffer(attrs.fillColor, attrs.strokeColor) then RingVertices(inner, attrs.fillColor) else [];
      CornersAppend(StrokeVertices(outer, inner, attrs.strokeColor), extra);
      StrokeVertexCorners(outer, inner, attrs.strokeColor);
      RingVertexCorners(inner, attrs.fillColor);
    } else if attrs.fill {
      RingVertexCorners(points, attrs.fillColor);
    }
  }

  /** The case analysis of FigureCornersDraw, one layout at a time. */
  lemma StrokeOnlyFigureDraws(attrs: FigureAttributes, points: seq<Point>, outer: seq<Point>, inner: seq<Point>, base: nat)
    requires |points| >= 3 && |outer| == |inner| == |points|
    requires attrs.stroke && !attrs.fill
    ensures IndicesWithin(FigureTriangles(attrs, base, |points|), base,
                          base + |FigureCornersOf(attrs, points, outer, inner)|)
    ensures Resolve(FigureCornersOf(attrs, points, outer, inner), base, FigureTriangles(attrs, base, |points|))
         == FigureFacesOf(attrs, points, outer, inner)
  {
    assert FigureCornersOf(attrs, points, outer, inner) == Interleaved(Colored(outer, attrs.strokeColor), Colored(inner, attrs.strokeColor)) by { assert Interleaved(Colored(outer, attrs.strokeColor), Colored(inner, attrs.strokeColor)) + [] == Interleaved(Colored(outer, attrs.strokeColor), Colored(inner, attrs.strokeColor)); }
    assert FigureTriangles(attrs, base, |points|) == Ribbon(base, |points|) by {
      assert Ribbon(base, |points|) + [] == Ribbon(base, |points|);
    }
    assert FigureFacesOf(attrs, points, outer, inner) == RingRibbon(outer, inner, attrs.strokeColor) by {
      assert RingRibbon(outer, inner, attrs.strokeColor) + [] == RingRibbon(outer, inner, attrs.strokeColor);
    }
    StrokeOnlyDraws(outer, inner, attrs.strokeColor, |points|, base);
  }

  lemma SeparateFillFigureDraws(attrs: FigureAttributes, points: seq<Point>, outer: seq<Point>, inner: seq<Point>, base: nat)
    requires |points| >= 3 && |outer| == |inner| == |points|
    requires attrs.stroke && attrs.fill && ColorsDiffer(attrs.fillColor, attrs.strokeColor)
    ensures IndicesWithin(FigureTriangles(attrs, base, |points|), base,
                          base + |FigureCornersOf(attrs, points, outer, inner)|)
    ensures Resolve(FigureCornersOf(attrs, points, outer, inner), base, FigureTriangles(attrs, base, |points|))
         == FigureFacesOf(attrs, points, outer, inner)
  {
    assert IndicesWithin(FigureTriangles(attrs, base, |points|), base,
                         base + |FigureCornersOf(attrs, points, outer, inner)|)
        && Resolve(FigureCornersOf(attrs, points, outer, inner), base, FigureTriangles(attrs, base, |points|))
        == FigureFacesOf(attrs, points, outer, inner) by {
      assert FigureCornersOf(attrs, points, outer, inner)
          == Interleaved(Colored(outer, attrs.strokeColor), Colored(inner, attrs.strokeColor)) + Colored(inner, attrs.fillColor);
      assert FigureTriangles(attrs, base, |points|) == Ribbon(base, |points|) + Fan(base + 2 * |points|, 1, |points|);
      assert FigureFacesOf(attrs, points, outer, inner)
          == RingRibbon(outer, inner, attrs.strokeColor) + RingFan(inner, attrs.fillColor);
      SeparateFillDraws(outer, inner, attrs.strokeColor, attrs.fillColor, |points|, base);
    }
  }

  lemma SharedFillFigureDraws(attrs: FigureAttributes, points: seq<Point>, outer: seq<Point>, inner: seq<Point>, base: nat)
    requires |points| >= 3 && |outer| == |inner| == |points|
    requires attrs.stroke && attrs.fill && !ColorsDiffer(attrs.fillColor, attrs.strokeColor)
    ensures IndicesWithin(FigureTriangles(attrs, base, |points|), base,
                          base + |FigureCornersOf(attrs, points, outer, inner)|)
    ensures Resolve(FigureCornersOf(attrs, points, outer, inner), base, FigureTriangles(attrs, base, |points|))
         == FigureFacesOf(attrs, points, outer, inner)
  {
    assert FigureCornersOf(attrs, points, outer, inner) == Interleaved(Colored(outer, attrs.strokeColor), Colored(inner, attrs.strokeColor)) by { assert Interleaved(Colored(outer, attrs.strokeColor), Colored(inner, attrs.strokeColor)) + [] == Interleaved(Colored(outer, attrs.strokeColor), Colored(inner, attrs.strokeColor)); }
    assert attrs.fillColor == attrs.strokeColor;
    SharedFillDraws(outer, inner, attrs.strokeColor, |points|, base);
  }

  lemma FillOnlyFigureDraws(attrs: FigureAttributes, points: seq<Point>, outer: seq<Point>, inner: seq<Point>, base: nat)
    requires |points| >= 3 && |outer| == |inner| == |points|
    requires !attrs.stroke && attrs.fill
    ensures IndicesWithin(FigureTriangles(attrs, base, |points|), base,
                          base + |FigureCornersOf(attrs, points, outer, inner)|)
    ensures Resolve(FigureCornersOf(attrs, points, outer, inner), base, FigureTriangles(attrs, base, |points|))
         == FigureFacesOf(attrs, points, outer, inner)
  {
    FillOnlyDraws(points, attrs.fillColor, base);
  }

  /**
   * A closed figure's triangles only use the figure's own corners, and looked up in them
   * they draw exactly the figure's faces: the stroke band in the stroke colour and the
   * fill fan in the fill colour, whichever of the two vertex layouts the fill uses.
   */
  lemma FigureCornersDraw(attrs: FigureAttributes, points: seq<Point>, outer: seq<Point>, inner: seq<Point>, base: nat)
    requires |points| >= 3 && |outer| == |inner| == |points|
    ensures IndicesWithin(FigureTriangles(attrs, base, |points|), base,
                          base + |FigureCornersOf(attrs, points, outer, inner)|)
    ensures Resolve(FigureCornersOf(attrs, points, outer, inner), base, FigureTriangles(attrs, base, |points|))
         == FigureFacesOf(attrs, points, outer, inner)
  {
    if attrs.stroke && !attrs.fill {
      StrokeOnlyFigureDraws(attrs, points, outer, inner, base);
    } else if attrs.stroke && ColorsDiffer(attrs.fillColor, attrs.strokeColor) {
      SeparateFillFigureDraws(attrs, points, outer, inner, base);
    } else if attrs.stroke {
      SharedFillFigureDraws(attrs, points, outer, inner, base);
    } else if attrs.fill {
      FillOnlyFigureDraws(attrs, points, outer, inner, base);
    }
  }

  /** The same, looked up in the vertices CloseFigure appends. */
  lemma FigureDraws(attrs: FigureAttributes, points: seq<Point>, outer: seq<Point>, inner: seq<Point>, base: nat)
    requires |points| >= 3 && |outer| == |inner| == |points|
    ensures IndicesWithin(FigureTriangles(attrs, base, |points|), base,
                          base + |FigureVerticesOf(attrs, points, outer, inner)|)
    ensures Resolve(Corners(FigureVerticesOf(attrs, points, outer, inner)), base, FigureTriangles(attrs, base, |points|))
         == FigureFacesOf(attrs, points, outer, inner)
  {
    FigureVertexCorners(attrs, points, outer, inner);
    FigureCornersDraw(attrs, points, outer, inner, base);
  }

  /** Moving the figure's first vertex moves every one of its indices by the same amount. */
  lemma FigureTrianglesShift(attrs: FigureAttributes, base: nat, n: nat)
    requires n >= 3
    ensures FigureTriangles(attrs, base, n) == Shifted(FigureTriangles(attrs, 0, n), base)
  {
    if attrs.stroke {
      RibbonShift(base, n);
      if attrs.fill {
        if ColorsDiffer(attrs.fillColor, attrs.strokeColor) {
          FanShift(2 * n, 1, n, base);
          ShiftedAppend(Ribbon(0, n), Fan(2 * n, 1, n), base);
        } else {
          FanShift(1, 2, n, base);
          ShiftedAppend(Ribbon(0, n), Fan(1, 2, n), base);
        }
      }
    } else if attrs.fill {
      FanShift(0, 1, n, base);
    }
  }

  /**
   * Appending a figure to a mesh whose indices are in range keeps them in range, and the
   * mesh then draws what it drew before followed by the figure's faces.
   */
  lemma MeshGrows(vertices: seq<MeshVertexAndColor>, indices: seq<MeshTriangleIndices>,
                  attrs: FigureAttributes, points: seq<Point>, outer: seq<Point>, inner: seq<Point>)
    requires |points| >= 3 && |outer| == |inner| == |points|
    requires IndicesWithin(indices, 0, |vertices|)
    ensures IndicesWithin(indices + FigureTriangles(attrs, |vertices|, |points|),
                          0, |vertices + FigureVerticesOf(attrs, points, outer, inner)|)
    ensures Resolve(Corners(vertices + FigureVerticesOf(attrs, points, outer, inner)), 0,
                    indices + FigureTriangles(attrs, |vertices|, |points|))
         == Resolve(Corners(vertices), 0, indices) + FigureFacesOf(attrs, points, outer, inner)
  {
    FigureDraws(attrs, points, outer, inner, |vertices|);
    VerticesAppend(vertices, indices, FigureVerticesOf(attrs, points, outer, inner),
                   FigureTriangles(attrs, |vertices|, |points|), FigureFacesOf(attrs, points, outer, inner));
  }

  /**
   * Appending vertices and triangles that index only the appended vertices, counted from
   * the old vertex count, appends their faces to what the mesh draws.
   */
  lemma VerticesAppend(vertices: seq<MeshVertexAndColor>, indices: seq<MeshTriangleIndices>,
                       added: seq<MeshVertexAndColor>, tris: seq<MeshTriangleIndices>, faces: seq<Face>)
    requires IndicesWithin(indices, 0, |vertices|)
    requires IndicesWithin(tris, |vertices|, |vertices| + |added|)
    requires Resolve(Corners(added), |vertices|, tris) == faces
    ensures IndicesWithin(indices + tris, 0, |vertices + added|)
    ensures Resolve(Corners(vertices + added), 0, indices + tris) == Resolve(Corners(vertices), 0, indices) + faces
  {
    CornersAppend(vertices, added);
    ResolveComposes(Corners(vertices), indices, Corners(added), tris, 0);
  }

  /** MeshGrows for the rings PolygonStroke computes. */
  lemma FigureGrowsMesh(vertices: seq<MeshVertexAndColor>, indices: seq<MeshTriangleIndices>,
                        attrs: FigureAttributes, points: seq<Point>, length: Vector2 -> real)
    requires |points| >= 3 && IsLength(length)
    requires IndicesWithin(indices, 0, |vertices|)
    ensures IndicesWithin(indices + FigureTriangles(attrs, |vertices|, |points|),
                          0, |vertices + FigureVertices(attrs, points, length)|)
    ensures Resolve(Corners(vertices + FigureVertices(attrs, points, length)), 0,
                    indices + FigureTriangles(attrs, |vertices|, |points|))
         == Resolve(Corners(vertices), 0, indices) + FigureFaces(attrs, points, length)
  {
    MeshGrows(vertices, indices, attrs, points, OuterRing(points, attrs.strokeThickness, length),
              InnerRing(points, attrs.strokeThickness, length));
  }

  // ---------------------------------------------------------------------------
  // One step of each CloseFigure loop

  lemma StrokeVerticesSnoc(outer: seq<Point>, inner: seq<Point>, i: nat, color: MeshColor)
    requires i < |outer| == |inner|
    ensures StrokeVertices(outer[..i + 1], inner[..i + 1], color)
         == StrokeVertices(outer[..i], inner[..i], color) + [VertexOf(outer[i], color), VertexOf(inner[i], color)]
  {
    var before := StrokeVertices(outer[..i], inner[..i], color);
    var after := StrokeVertices(outer[..i + 1], inner[..i + 1], color);
    var extended := before + [VertexOf(outer[i], color), VertexOf(inner[i], color)];
    forall k | 0 <= k < 2 * i + 2
      ensures after[k] == extended[k]
    {
      if k < 2 * i {
        assert k / 2 < i;
      } else {
        assert k / 2 == i;
      }
    }
  }

  lemma RingVerticesSnoc(ring: seq<Point>, i: nat, color: MeshColor)
    requires i < |ring|
    ensures RingVertices(ring[..i + 1], color) == RingVertices(ring[..i], color) + [VertexOf(ring[i], color)]
  {
  }

  // ---------------------------------------------------------------------------
  // The builder

  /**
   * Accumulates closed figures into one vertex list and one triangle list. Figures are
   * described by BeginFigure, AddPoint and CloseFigure; Build, BuildInto and Reset hand
   * out or drop what has been accumulated. The stroke rings of the last stroked figure
   * are kept in two cache lists that are reused between figures.
   */
  class PathMeshBuilder {
    var figureStroke: bool
    var figureFill: bool
    var figureStrokeColor: MeshColor
    var figureFillColor: MeshColor
    var figureStrokeThickness: real
    var figurePoints: seq<Point>

    var finalVerticesAndColors: seq<MeshVertexAndColor>
    var finalIndices: seq<MeshTriangleIndices>

    var innerPointsCache: seq<Point>
    var outerPointsCache: seq<Point>

    /** Vector<float>.Count of the machine. */
    const laneCount: nat
    /** Vector2.Length. */
    const length: Vector2 -> real

    /** Every accumulated triangle indexes an accumulated vertex. */
    ghost predicate Valid()
      reads this`finalVerticesAndColors, this`finalIndices
    {
      ValidLaneCount(laneCount) && IsLength(length)
      && IndicesWithin(finalIndices, 0, |finalVerticesAndColors|)
    }

    /** The attributes BeginFigure stored for the pending figure. */
    function Attributes(): FigureAttributes
      reads this`figureStroke, this`figureFill, this`figureStrokeColor, this`figureFillColor, this`figureStrokeThickness
    {
      FigureAttributes(figureStroke, figureFill, figureStrokeColor, figureFillColor, figureStrokeThickness)
    }

    /** The faces the accumulated mesh draws. */
    ghost function Drawn(): seq<Face>
      reads this`finalVerticesAndColors, this`finalIndices
      requires Valid()
    {
      Resolve(Corners(finalVerticesAndColors), 0, finalIndices)
    }

    /** A new builder: no pending figure, an empty mesh, the attribute fields at their defaults. */
    constructor (laneCount: nat, length: Vector2 -> real)
      requires ValidLaneCount(laneCount) && IsLength(length)
      ensures Valid()
      ensures this.laneCount == laneCount && this.length == length
      ensures Attributes() == FigureAttributes(false, false, MeshColor(0, 0, 0, 0), MeshColor(0, 0, 0, 0), 0.0)
      ensures figurePoints == [] && innerPointsCache == [] && outerPointsCache == []
      ensures finalVerticesAndColors == [] && finalIndices == []
      ensures Drawn() == []
    {
      this.laneCount := laneCount;
      this.length := length;
      figureStroke := false;
      figureFill := false;
      figureStrokeColor := MeshColor(0, 0, 0, 0);
      figureFillColor := MeshColor(0, 0, 0, 0);
      figureStrokeThickness := 0.0;
      figurePoints := [];
      finalVerticesAndColors := [];
      finalIndices := [];
      innerPointsCache := [];
      outerPointsCache := [];
    }

    /** Stores the attributes of a new figure and discards any pending points; the mesh is untouched. */
    method BeginFigure(stroke: bool, fill: bool, strokeColor: MeshColor, fillColor: MeshColor, strokeThickness: real)
      modifies this`figureStroke, this`figureFill, this`figureStrokeColor, this`figureFillColor,
               this`figureStrokeThickness, this`figurePoints
      ensures Attributes() == FigureAttributes(stroke, fill, strokeColor, fillColor, strokeThickness)
      ensures figurePoints == []
    {
      figureStroke := stroke;
      figureFill := fill;
      figureStrokeColor := strokeColor;
      figureFillColor := fillColor;
      figureStrokeThickness := strokeThickness;
      figurePoints := [];
    }

    /** Appends one point to the pending figure. */
    method AddPoint(x: real, y: real)
      modifies this`figurePoints
      ensures figurePoints == old(figurePoints) + [Point(x, y)]
    {
      figurePoints := figurePoints + [Point(x, y)];
    }

    /**
     * Closes the pending figure. With fewer than 3 points it fails and changes nothing.
     * Otherwise it appends the figure's vertices and triangles (indexed from the vertex
     * count before the call), so that the mesh draws what it drew before followed by the
     * figure's faces, keeps the stroke rings in the caches when stroked, and clears the
     * pending points.
     */
    method CloseFigure() returns (outcome: Outcome)
      requires Valid()
      modifies this`finalVerticesAndColors, this`finalIndices, this`figurePoints,
               this`innerPointsCache, this`outerPointsCache
      ensures Valid()
      ensures |old(figurePoints)| < 3 ==>
        && outcome == Fail("A figure must have at least 3 points to be closed.")
        && finalVerticesAndColors == old(finalVerticesAndColors) && finalIndices == old(finalIndices)
        && figurePoints == old(figurePoints)
      ensures |old(figurePoints)| >= 3 ==>
        && outcome == Pass
        && finalVerticesAndColors == old(finalVerticesAndColors) + FigureVertices(Attributes(), old(figurePoints), length)
        && finalIndices == old(finalIndices)
             + FigureTriangles(Attributes(), |old(finalVerticesAndColors)|, |old(figurePoints)|)
        && Drawn() == old(Drawn()) + FigureFaces(Attributes(), old(figurePoints), length)
        && figurePoints == []
      ensures if |old(figurePoints)| >= 3 && figureStroke then
                && outerPointsCache == OuterRing(old(figurePoints), figureStrokeThickness, length)
                && innerPointsCache == InnerRing(old(figurePoints), figureStrokeThickness, length)
              else
                outerPointsCache == old(outerPointsCache) && innerPointsCache == old(innerPointsCache)
    {
      if |figurePoints| < 3 {
        return Fail("A figure must have at least 3 points to be closed.");
      }
      AppendFigure();
      figurePoints := [];
      return Pass;
    }

    /** CloseFigure for a figure of at least 3 points, before the pending points are cleared. */
    method AppendFigure()
      requires Valid() && |figurePoints| >= 3
      modifies this`finalVerticesAndColors, this`finalIndices, this`innerPointsCache, this`outerPointsCache
      ensures Valid()
      ensures finalVerticesAndColors == old(finalVerticesAndColors) + FigureVertices(Attributes(), figurePoints, length)
      ensures finalIndices
           == old(finalIndices) + FigureTriangles(Attributes(), |old(finalVerticesAndColors)|, |figurePoints|)
      ensures Drawn() == old(Drawn()) + FigureFaces(Attributes(), figurePoints, length)
      ensures if figureStroke then
                && outerPointsCache == OuterRing(figurePoints, figureStrokeThickness, length)
                && innerPointsCache == InnerRing(figurePoints, figureStrokeThickness, length)
              else
                outerPointsCache == old(outerPointsCache) && innerPointsCache == old(innerPointsCache)
    {
      if figureStroke {
        var baseIndex := |finalVerticesAndColors|;
        innerPointsCache := [];
        outerPointsCache := [];
        innerPointsCache, outerPointsCache :=
          PolygonStroke(figurePoints, innerPointsCache, outerPointsCache, figureStrokeThickness, laneCount, length);
        AppendStrokedFigure(baseIndex);
        assert finalVerticesAndColors == old(finalVerticesAndColors) + FigureVertices(Attributes(), figurePoints, length);
      } else if figureFill {
        AppendFilledFigure();
      } else {
        assert FigureVertices(Attributes(), figurePoints, length) == [];
        assert FigureTriangles(Attributes(), |old(finalVerticesAndColors)|, |figurePoints|) == [];
      }
      FigureGrowsMesh(old(finalVerticesAndColors), old(finalIndices), Attributes(), figurePoints, length);
    }

    /**
     * The stroked part of AppendFigure, once the stroke rings are in the caches: the stroke
     * vertices and ribbon, then the fill.
     */
    method AppendStrokedFigure(baseIndex: nat)
      requires |figurePoints| >= 3 && figureStroke
      requires |outerPointsCache| == |innerPointsCache| == |figurePoints|
      requires baseIndex == |finalVerticesAndColors|
      modifies this`finalVerticesAndColors, this`finalIndices
      ensures finalVerticesAndColors
           == old(finalVerticesAndColors) + FigureVerticesOf(Attributes(), figurePoints, outerPointsCache, innerPointsCache)
      ensures finalIndices == old(finalIndices) + FigureTriangles(Attributes(), baseIndex, |figurePoints|)
    {
      if figureFill {
        AppendFilledStroke(baseIndex);
      } else {
        AppendStrokeOnly(baseIndex);
      }
    }

    method AppendStrokeOnly(baseIndex: nat)
      requires |figurePoints| >= 3 && figureStroke
      requires |outerPointsCache| == |innerPointsCache| == |figurePoints|
      requires baseIndex == |finalVerticesAndColors|
      requires !figureFill
      modifies this`finalVerticesAndColors, this`finalIndices
      ensures finalVerticesAndColors
           == old(finalVerticesAndColors) + FigureVerticesOf(Attributes(), figurePoints, outerPointsCache, innerPointsCache)
      ensures finalIndices == old(finalIndices) + FigureTriangles(Attributes(), baseIndex, |figurePoints|)
    {
      AppendStrokeVertices(outerPointsCache, innerPointsCache, figureStrokeColor);
      AppendRibbon(baseIndex, |figurePoints|);
      assert Ribbon(baseIndex, |figurePoints|) + [] == Ribbon(baseIndex, |figurePoints|);
      assert StrokeVertices(outerPointsCache, innerPointsCache, figureStrokeColor) + []
          == StrokeVertices(outerPointsCache, innerPointsCache, figureStrokeColor);
    }

    method AppendFilledStroke(baseIndex: nat)
      requires |figurePoints| >= 3 && figureStroke
      requires |outerPointsCache| == |innerPointsCache| == |figurePoints|
      requires baseIndex == |finalVerticesAndColors|
      requires figureFill
      modifies this`finalVerticesAndColors, this`finalIndices
      ensures finalVerticesAndColors
           == old(finalVerticesAndColors) + FigureVerticesOf(Attributes(), figurePoints, outerPointsCache, innerPointsCache)
      ensures finalIndices == old(finalIndices) + FigureTriangles(Attributes(), baseIndex, |figurePoints|)
    {
      AppendStrokeVertices(outerPointsCache, innerPointsCache, figureStrokeColor);
      AppendRibbon(baseIndex, |figurePoints|);
      AppendStrokeFill(baseIndex);
      FilledStrokeAppends(old(finalVerticesAndColors), old(finalIndices), Attributes(), figurePoints,
                          outerPointsCache, innerPointsCache, baseIndex);
    }

    /**
     * The fill of a stroked figure whose stroke vertices start at baseIndex: the fan over
     * the inner ring's stroke vertices, or, for a fill of another colour, over a copy of
     * the inner ring in the fill colour.
     */
    method AppendStrokeFill(baseIndex: nat)
      requires |figurePoints| >= 3 && |innerPointsCache| == |figurePoints|
      modifies this`finalVerticesAndColors, this`finalIndices
      ensures finalVerticesAndColors == old(finalVerticesAndColors)
           + (if ColorsDiffer(figureFillColor, figureStrokeColor) then RingVertices(innerPointsCache, figureFillColor) else [])
      ensures finalIndices == old(finalIndices)
           + (if ColorsDiffer(figureFillColor, figureStrokeColor) then Fan(baseIndex + 2 * |figurePoints|, 1, |figurePoints|)
              else Fan(baseIndex + 1, 2, |figurePoints|))
    {
      var fillBaseIndex := baseIndex + 1;
      var fillBaseIndexStep := 2;
      if ColorsDiffer(figureFillColor, figureStrokeColor) {
        AppendRingVertices(innerPointsCache, figureFillColor);
        fillBaseIndex := baseIndex + |figurePoints| * 2;
        fillBaseIndexStep := 1;
      } else {
        assert finalVerticesAndColors == old(finalVerticesAndColors) + [];
      }
      AppendFan(fillBaseIndex, fillBaseIndexStep, |figurePoints|);
    }

    /** The fill-only part of AppendFigure: the points themselves in the fill colour, and their fan. */
    method AppendFilledFigure()
      requires IsLength(length)
      requires |figurePoints| >= 3 && !figureStroke && figureFill
      modifies this`finalVerticesAndColors, this`finalIndices
      ensures finalVerticesAndColors == old(finalVerticesAndColors) + FigureVertices(Attributes(), figurePoints, length)
      ensures finalIndices
           == old(finalIndices) + FigureTriangles(Attributes(), |old(finalVerticesAndColors)|, |figurePoints|)
    {
      var baseIndex := |finalVerticesAndColors|;
      AppendRingVertices(figurePoints, figureFillColor);
      AppendFan(baseIndex, 1, |figurePoints|);
    }

    /** Hands out the accumulated mesh as two new arrays, in order, and empties the builder's lists. */
    method Build() returns (verticesAndColors: array<MeshVertexAndColor>, indices: array<MeshTriangleIndices>)
      requires Valid()
      modifies this`finalVerticesAndColors, this`finalIndices
      ensures Valid()
      ensures fresh(verticesAndColors) && fresh(indices)
      ensures verticesAndColors[..] == old(finalVerticesAndColors) && indices[..] == old(finalIndices)
      ensures finalVerticesAndColors == [] && finalIndices == []
    {
      var vs := finalVerticesAndColors;
      var ts := finalIndices;
      verticesAndColors := new MeshVertexAndColor[|vs|](k requires 0 <= k < |vs| => vs[k]);
      indices := new MeshTriangleIndices[|ts|](k requires 0 <= k < |ts| => ts[k]);
      Reset();
    }

    /**
     * Appends the accumulated mesh to the caller's lists, whose earlier content stays in
     * front, and empties the builder's lists.
     */
    method BuildInto(verticesAndColors: seq<MeshVertexAndColor>, indices: seq<MeshTriangleIndices>)
      returns (newVerticesAndColors: seq<MeshVertexAndColor>, newIndices: seq<MeshTriangleIndices>)
      requires Valid()
      modifies this`finalVerticesAndColors, this`finalIndices
      ensures Valid()
      ensures newVerticesAndColors == verticesAndColors + old(finalVerticesAndColors)
      ensures newIndices == indices + old(finalIndices)
      ensures finalVerticesAndColors == [] && finalIndices == []
    {
      newVerticesAndColors := verticesAndColors + finalVerticesAndColors;
      newIndices := indices + finalIndices;
      Reset();
    }

    /** Drops the accumulated mesh; the pending figure is kept. */
    method Reset()
      requires Valid()
      modifies this`finalVerticesAndColors, this`finalIndices
      ensures Valid()
      ensures finalVerticesAndColors == [] && finalIndices == []
      ensures Drawn() == []
    {
      finalVerticesAndColors := [];
      finalIndices := [];
    }

    /** Outer then inner vertex of every ring point, in one colour. */
    method AppendStrokeVertices(outer: seq<Point>, inner: seq<Point>, color: MeshColor)
      requires |outer| == |inner|
      modifies this`finalVerticesAndColors
      ensures finalVerticesAndColors == old(finalVerticesAndColors) + StrokeVertices(outer, inner, color)
    {
      ghost var start := finalVerticesAndColors;
      var i := 0;
      while i < |outer|
        invariant 0 <= i <= |outer|
        invariant finalVerticesAndColors == start + StrokeVertices(outer[..i], inner[..i], color)
      {
        StrokeVerticesSnoc(outer, inner, i, color);
        finalVerticesAndColors := finalVerticesAndColors + [VertexOf(outer[i], color)];
        finalVerticesAndColors := finalVerticesAndColors + [VertexOf(inner[i], color)];
        i := i + 1;
      }
      assert outer[..|outer|] == outer && inner[..|inner|] == inner;
    }

    /** One vertex per ring point, in one colour. */
    method AppendRingVertices(ring: seq<Point>, color: MeshColor)
      modifies this`finalVerticesAndColors
      ensures finalVerticesAndColors == old(finalVerticesAndColors) + RingVertices(ring, color)
    {
      ghost var start := finalVerticesAndColors;
      var i := 0;
      while i < |ring|
        invariant 0 <= i <= |ring|
        invariant finalVerticesAndColors == start + RingVertices(ring[..i], color)
      {
        RingVerticesSnoc(ring, i, color);
        finalVerticesAndColors := finalVerticesAndColors + [VertexOf(ring[i], color)];
        i := i + 1;
      }
      assert ring[..|ring|] == ring;
    }

    /** The two triangles of every stroke quad. */
    method AppendRibbon(baseIndex: nat, count: nat)
      requires count > 0
      modifies this`finalIndices
      ensures finalIndices == old(finalIndices) + Ribbon(baseIndex, count)
    {
      ghost var start := finalIndices;
      var i := 0;
      while i < count
        invariant 0 <= i <= count
        invariant finalIndices == start + Ribbon(baseIndex, count)[..2 * i]
      {
        var next := (i + 1) % count;
        var outerCurrent := baseIndex + i * 2;
        var innerCurrent := baseIndex + i * 2 + 1;
        var outerNext := baseIndex + next * 2;
        var innerNext := baseIndex + next * 2 + 1;
        RibbonStep(baseIndex, count, i);
        finalIndices := finalIndices + [MeshTriangleIndices(outerCurrent, innerCurrent, innerNext)];
        finalIndices := finalIndices + [MeshTriangleIndices(outerCurrent, innerNext, outerNext)];
        i := i + 1;
      }
      assert Ribbon(baseIndex, count)[..2 * count] == Ribbon(baseIndex, count);
    }

    /** The fan of count - 2 triangles over vertices `step` apart from `first`. */
    method AppendFan(first: nat, step: nat, count: nat)
      requires count >= 2
      modifies this`finalIndices
      ensures finalIndices == old(finalIndices) + Fan(first, step, count)
    {
      ghost var start := finalIndices;
      var i := 1;
      while i < count - 1
        invariant 1 <= i <= count - 1
        invariant finalIndices == start + Fan(first, step, count)[..i - 1]
      {
        FanStep(first, step, count, i);
        finalIndices := finalIndices + [MeshTriangleIndices(first, first + i * step, first + (i + 1) * step)];
        i := i + 1;
      }
      assert Fan(first, step, count)[..count - 2] == Fan(first, step, count);
    }
  }

  /** Reset followed by Build hands out an empty mesh, whatever had been accumulated. */
  method ResetThenBuild(builder: PathMeshBuilder)
    returns (verticesAndColors: array<MeshVertexAndColor>, indices: array<MeshTriangleIndices>)
    requires builder.Valid()
    modifies builder`finalVerticesAndColors, builder`finalIndices
    ensures verticesAndColors.Length == 0 && indices.Length == 0
  {
    builder.Reset();
    verticesAndColors, indices := builder.Build();
  }
}
