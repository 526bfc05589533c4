# Path mesh builder, modelled and verified in Dafny

DxPathRendering turns vector "figures" into one triangle mesh for a GPU. A figure is a
closed polygon that is stroked, filled, or both, with its own colours and stroke
thickness. The mesh is a vertex list (position and RGBA colour) and a list of index
triples. The repository has two builders that do this: the library one
(`LibDxPathRendering`) and the older one in the DxPolygonDraw demo. Both are modelled
here, each as the imperative class it is in the source.

- `Geometry.dfy` holds what both builders share:
  - points, colours and index triples;
  - the shoelace orientation sum, Σ (next.x − cur.x)(next.y + cur.y) over the closed polygon;
  - the miter offset of a stroke join: the bisector of the two outward edge normals,
    scaled by half the thickness and by 1 / (|bisector| / 2), with a fallback to the
    incoming normal when the bisector is shorter than 0.0001;
  - the outer and inner rings, each point moved by its offset or against it.
- `Triangulation.dfy` holds the two index patterns, the closed stroke ribbon and the
  fill fan, and `Resolve`. `Resolve` looks triangles up in a vertex list, giving the
  coloured faces a renderer would draw. The faces are what the builders' properties
  are stated about. The file also has the lemmas that say which faces each layout draws.
- `LibPathMeshBuilder.dfy` (module `LibDxPathRendering`) models the library builder:
  - `IsClockwise`: the SIMD-blocked winding test. Lanes are sequences, the
    per-block scratch buffers are arrays, and the loops carry invariants.
  - `PolygonStroke`: its two loops over arrays.
  - class `PathMeshBuilder`: its list fields are `seq` fields and its methods update them.
- `DxPolygonDraw.dfy` (module `DxPolygonDraw`) models the demo builder. It has:
  - a plain-loop winding test;
  - the offset loop inlined in `CloseFigure`;
  - a silent return for fewer than 3 points, with the pending points kept;
  - for a stroke with a fill of another colour, two fill fans: one over the stroke's
    inner vertices and one over the fill-coloured copy;
  - the capacity it reserves before appending;
  - `Build`, which clears both lists itself.
- `Variants.dfy` relates the two builders:
  - their winding tests agree on every polygon;
  - their rings agree whenever the length behaves like the Euclidean one;
  - they append the same vertices;
  - the demo's triangles and faces are the library's plus one extra stroke-coloured fan.

Every method is proved against a specification function. Each builder's
`CloseFigure` is proved to append exactly `FigureVertices` and `FigureTriangles`,
indexed from the vertex count at figure start. Its ghost view `Drawn()` of the whole
mesh grows by exactly the faces of the figure: the stroke band over the two rings, then
the fill fan or fans. This implies that every index stays below the vertex count.

The winding test is the code's `sum > 0`. That is clockwise with the y axis pointing
up. In the usual y-down screen coordinates, a polygon the code calls "clockwise" is
visually counter-clockwise: (0,0), (0,1), (1,1), (1,0) has a sum of 2
(`Geometry.ShoelaceOfUnitSquare`). The code only
uses the answer to choose the sign of the edge normals (`Geometry.Outward`), so
the name of the test does not matter to the mesh.

## Model

| member | source | states |
|---|---|---|
| Geometry.ShoelaceOfShortPolygon | DxPolygonDraw/PathMeshBuilder.cs:27-37 | a polygon of fewer than 3 points has a zero orientation sum, so the unguarded demo test reports it as not clockwise, like the guarded library test |
| Geometry.ShoelaceRotationInvariant | LibDxPathRendering/PathMeshBuilder.cs:87-94 | the wraparound sum does not depend on which point the figure starts at |
| Geometry.ShoelaceReversalNegates | LibDxPathRendering/PathMeshBuilder.cs:87-94 | listing the points in reverse order negates the sum, so a non-degenerate polygon is clockwise one way round only |
| Geometry.SumNegated | LibDxPathRendering/PathMeshBuilder.cs:80-84 | negating every summand negates the sum |
| Geometry.SumReversed | LibDxPathRendering/PathMeshBuilder.cs:80-84 | summing in reverse order gives the same sum |
| Geometry.EdgeTermReversed | LibDxPathRendering/PathMeshBuilder.cs:91 | the term of the edge b→a is minus the term of a→b |
| Geometry.EdgeTermDegenerate | LibDxPathRendering/PathMeshBuilder.cs:91 | a zero-length edge contributes nothing to the sum |
| Geometry.PrevIndexIsMod | LibDxPathRendering/PathMeshBuilder.cs:122 | `(i + count - 1) % count` is the index before i on the closed polygon (count - 1 for i = 0) |
| Geometry.NextIndexIsMod | LibDxPathRendering/PathMeshBuilder.cs:123 | `(i + 1) % count` is the index after i (0 for the last point) |
| Geometry.RingsMirrored | LibDxPathRendering/PathMeshBuilder.cs:164-181 | for every i, point i is the midpoint of outer[i] and inner[i], in the bisector branch and in the fallback branch |
| Geometry.MiterOffsetOdd | LibDxPathRendering/PathMeshBuilder.cs:147-182 | negating both edge normals negates the join offset, in both branches |
| Geometry.StrokeOffsetFlipsWithWinding | LibDxPathRendering/PathMeshBuilder.cs:139-143 | the offset of a point treated as counter-clockwise is minus its offset treated as clockwise |
| Geometry.DisplacedSnoc | LibDxPathRendering/PathMeshBuilder.cs:164-170 | moving one more point by its offset extends the ring by exactly that point |
| Geometry.ShoelaceOfUnitSquare | LibDxPathRendering/PathMeshBuilder.cs:87-94 | the unit square listed up its left side, along its top and down its right side has sum 2, so the test calls it clockwise: clockwise with y pointing up, counter-clockwise on a y-down screen |
| Geometry.Sum | LibDxPathRendering/PathMeshBuilder.cs:80-84 | definition: the sum accumulated from the first element to the last, as the source's loops add |
| Geometry.EdgeTerm | LibDxPathRendering/PathMeshBuilder.cs:91 | definition: the term of the edge current → next, (next.x − current.x)(next.y + current.y) |
| Geometry.Terms | LibDxPathRendering/PathMeshBuilder.cs:87-92 | definition: one term per point; the last edge wraps back to the first point, `(i + 1) % count` |
| Geometry.Shoelace | LibDxPathRendering/PathMeshBuilder.cs:80-94 | definition: the sum of all edge terms, which both winding tests compare with 0 (also DxPolygonDraw 29-36) |
| Geometry.Clockwise | LibDxPathRendering/PathMeshBuilder.cs:94 | definition: the winding answer, `sum > 0` |
| Geometry.PrevIndex | LibDxPathRendering/PathMeshBuilder.cs:122 | definition: the wraparound predecessor, always a valid index (`PrevIndexIsMod` ties it to the modulo expression) |
| Geometry.NextIndex | LibDxPathRendering/PathMeshBuilder.cs:123 | definition: the wraparound successor, always a valid index (`NextIndexIsMod` ties it to the modulo expression) |
| Geometry.IsLength | LibDxPathRendering/PathMeshBuilder.cs:151 | the only facts about `Vector2.Length` the model uses: non-zero on a non-zero vector, equal on v and −v |
| Geometry.Normalize | LibDxPathRendering/PathMeshBuilder.cs:130 | definition: `Vector2.Normalize`, the vector divided by its length |
| Geometry.UnitOrZero | LibDxPathRendering/PathMeshBuilder.cs:129-133 | definition: an edge direction normalised unless it is the zero vector, which stays zero |
| Geometry.LeftNormal | LibDxPathRendering/PathMeshBuilder.cs:136-137 | definition: the perpendicular (−y, x) the source builds from a direction |
| Geometry.Outward | LibDxPathRendering/PathMeshBuilder.cs:139-143 | definition: a normal negated when the polygon is not clockwise |
| Geometry.PrevNormal | LibDxPathRendering/PathMeshBuilder.cs:118-143 | definition: the normal of the edge arriving at point i: its direction from the previous point, normalised unless zero, turned left, negated unless clockwise |
| Geometry.NextNormal | LibDxPathRendering/PathMeshBuilder.cs:118-143 | definition: the same for the edge leaving point i towards the next point |
| Geometry.MiterOffset | LibDxPathRendering/PathMeshBuilder.cs:148-181 | definition: the join offset: the normalised bisector of the two normals times half the thickness times 1 / (|bisector| / 2) when |bisector| > 0.0001, otherwise the incoming normal times half the thickness |
| Geometry.StrokeOffset | LibDxPathRendering/PathMeshBuilder.cs:118-181 | definition: the join offset at point i, from the normals of its two edges |
| Geometry.Offsets | LibDxPathRendering/PathMeshBuilder.cs:106-181 | definition: the join offsets of every point, with the winding the polygon itself has |
| Geometry.Displaced | LibDxPathRendering/PathMeshBuilder.cs:164-166 | definition: each point plus its offset |
| Geometry.Retracted | LibDxPathRendering/PathMeshBuilder.cs:168-170 | definition: each point minus its offset |
| Geometry.OuterRing | LibDxPathRendering/PathMeshBuilder.cs:96-183 | definition: the outer points PolygonStroke emits, one per input point, in order |
| Geometry.InnerRing | LibDxPathRendering/PathMeshBuilder.cs:96-183 | definition: the inner points PolygonStroke emits, one per input point, in order |
| Geometry.ColorsDiffer | LibDxPathRendering/PathMeshBuilder.cs:259-262 | definition: the fill and stroke colours differ in at least one of R, G, B and A |
| Triangulation.Ribbon | LibDxPathRendering/PathMeshBuilder.cs:237-249 | the ribbon of n points has 2n triangles |
| Triangulation.Fan | LibDxPathRendering/PathMeshBuilder.cs:279-286 | the fan over n points has n − 2 triangles |
| Triangulation.RibbonWithin | LibDxPathRendering/PathMeshBuilder.cs:237-249 | every ribbon index lies in [base, base + 2n), so the ribbon only uses the figure's stroke vertices |
| Triangulation.FanWithin | LibDxPathRendering/PathMeshBuilder.cs:279-286 | every fan index lies between the first vertex and the last one the stride reaches |
| Triangulation.RibbonShift | LibDxPathRendering/PathMeshBuilder.cs:241-244 | the ribbon from base is the ribbon from 0 with base added to every index |
| Triangulation.FanShift | LibDxPathRendering/PathMeshBuilder.cs:281-285 | the fan from first + d is the fan from first with d added to every index |
| Triangulation.RibbonStep | LibDxPathRendering/PathMeshBuilder.cs:237-249 | iteration i of the ribbon loop appends the two triangles (base+2i, base+2i+1, base+2next+1) and (base+2i, base+2next+1, base+2next), with next = (i+1) mod n |
| Triangulation.FanStep | LibDxPathRendering/PathMeshBuilder.cs:279-286 | iteration i of the fan loop appends (first, first + i·step, first + (i+1)·step) |
| Triangulation.RibbonResolves | LibDxPathRendering/PathMeshBuilder.cs:221-249 | over the interleaved outer/inner stroke vertices, the ribbon draws the band between the two rings: two stroke-coloured faces per edge |
| Triangulation.FanResolves | LibDxPathRendering/PathMeshBuilder.cs:277-286 | a fan over any vertex run whose stride-selected entries are a ring in one colour draws the fan of that ring |
| Triangulation.ResolveComposes | LibDxPathRendering/PathMeshBuilder.cs:211 | vertices appended after earlier ones, with triangles indexed from the old vertex count, draw the earlier faces followed by the new ones |
| Triangulation.DrawsConcat | LibDxPathRendering/PathMeshBuilder.cs:251-287 | two vertex/triangle pieces appended one after the other draw their faces in order |
| Triangulation.ResolveAppend | LibDxPathRendering/PathMeshBuilder.cs:277-286 | more triangles over the same vertices draw the earlier faces followed by the new ones |
| Triangulation.StrokeOnlyDraws | LibDxPathRendering/PathMeshBuilder.cs:221-249 | the stroke vertices and ribbon draw the band between the rings |
| Triangulation.SharedFillDraws | LibDxPathRendering/PathMeshBuilder.cs:252-256 | with the fill in the stroke colour, the stride-2 fan from base + 1 draws the inner ring's fan in that colour after the band |
| Triangulation.SeparateFillDraws | LibDxPathRendering/PathMeshBuilder.cs:259-286 | with the fill in another colour, the fan over the fill-coloured copy at base + 2n draws the inner ring's fan in the fill colour after the band |
| Triangulation.FillOnlyDraws | LibDxPathRendering/PathMeshBuilder.cs:289-311 | the points in the fill colour with the fan from base draw the polygon's fan in the fill colour |
| Triangulation.IndicesWithin | LibDxPathRendering/PathMeshBuilder.cs:21-22 | definition: every index of every triangle lies in a range of vertex positions |
| Triangulation.Shifted | LibDxPathRendering/PathMeshBuilder.cs:241-244 | definition: triangles with every index moved up by the same amount, as `baseIndex +` does |
| Triangulation.Resolve | LibDxPathRendering/PathMeshBuilder.cs:21-22 | definition: the triangles read through the vertex list, giving the coloured faces a renderer draws |
| Triangulation.Colored | LibDxPathRendering/PathMeshBuilder.cs:295-300 | definition: a ring's points, each paired with one colour |
| Triangulation.Interleaved | LibDxPathRendering/PathMeshBuilder.cs:221-234 | definition: outer[0], inner[0], outer[1], inner[1], … as the stroke vertex loop lays them out |
| Triangulation.Strided | LibDxPathRendering/PathMeshBuilder.cs:279-286 | definition: every step-th vertex from a start, as a fan with a stride reads them |
| Triangulation.RingRibbon | LibDxPathRendering/PathMeshBuilder.cs:236-249 | definition: the band between the rings, independent of indices: per edge i → next, the faces (outer[i], inner[i], inner[next]) and (outer[i], inner[next], outer[next]) |
| Triangulation.RingFan | LibDxPathRendering/PathMeshBuilder.cs:303-311 | definition: the fan of a ring from its first point, (ring[0], ring[i], ring[i+1]) for i = 1 … n − 2 |
| Triangulation.FigureCornersOf | LibDxPathRendering/PathMeshBuilder.cs:209-312 | definition: the corners a figure contributes for each case: the interleaved rings in the stroke colour and, for a fill of another colour, the inner ring in the fill colour; the points in the fill colour for a fill alone |
| Triangulation.FigureFacesOf | LibDxPathRendering/PathMeshBuilder.cs:209-312 | definition: the faces a figure is meant to draw: the band in the stroke colour, then the inner ring's fan in the fill colour; the points' fan for a fill alone |
| Triangulation.FigureCorners | LibDxPathRendering/PathMeshBuilder.cs:209-312 | definition: FigureCornersOf with the rings PolygonStroke computes |
| Triangulation.FigureFaces | LibDxPathRendering/PathMeshBuilder.cs:209-312 | definition: FigureFacesOf with the rings PolygonStroke computes |
| LibDxPathRendering.SumLaneAdd | LibDxPathRendering/PathMeshBuilder.cs:76 | adding two lane vectors adds their lane sums |
| LibDxPathRendering.SumBlockLanes | LibDxPathRendering/PathMeshBuilder.cs:47-64 | a block whose odd lanes are zero-padded sums to the scalar terms of its points |
| LibDxPathRendering.LoadLanes | LibDxPathRendering/PathMeshBuilder.cs:47-64 | after step j of the inner loop, lanes 2m and 2m+1 hold the coordinates of point i + m and of its successor, and zero, for every m ≤ j |
| LibDxPathRendering.LoadedProduct | LibDxPathRendering/PathMeshBuilder.cs:66-74 | the lane-wise (xNext − xCurrent)(yNext + yCurrent) of loaded lanes is the block of shoelace terms, zero in the padding lanes |
| LibDxPathRendering.BlockProduct | LibDxPathRendering/PathMeshBuilder.cs:41-74 | the product vector of one block equals the zero-padded shoelace terms of that block |
| LibDxPathRendering.AccumulateBlock | LibDxPathRendering/PathMeshBuilder.cs:76 | adding a block's product keeps the accumulator's lane sum equal to the shoelace prefix |
| LibDxPathRendering.SumBlocks | LibDxPathRendering/PathMeshBuilder.cs:34-77 | the block loop leaves a lane vector whose sum is the shoelace sum of the first vectorizableCount edges |
| LibDxPathRendering.SumLanes | LibDxPathRendering/PathMeshBuilder.cs:80-84 | the horizontal add returns the sum of all lanes |
| LibDxPathRendering.AddRemainingTerms | LibDxPathRendering/PathMeshBuilder.cs:86-92 | the scalar tail loop completes the blocked prefix to the full wraparound sum |
| LibDxPathRendering.IsClockwise | LibDxPathRendering/PathMeshBuilder.cs:28-94 | true iff the polygon has at least 3 points and its wraparound shoelace sum is positive, for every even lane count ≥ 2 |
| LibDxPathRendering.SumZeros | LibDxPathRendering/PathMeshBuilder.cs:37 | the zero vector the accumulator starts from sums to 0 |
| LibDxPathRendering.WholeBlocks | LibDxPathRendering/PathMeshBuilder.cs:35 | the vectorizable prefix never exceeds the point count |
| LibDxPathRendering.PrepareJoin | LibDxPathRendering/PathMeshBuilder.cs:118-144 | iteration i of the first PolygonStroke loop stores point i and its two outward edge normals, and keeps the earlier entries |
| LibDxPathRendering.EdgeDirection | LibDxPathRendering/PathMeshBuilder.cs:125-132 | an edge vector is normalised unless it is zero, and a zero edge stays zero |
| LibDxPathRendering.NormalOfEdge | LibDxPathRendering/PathMeshBuilder.cs:125-143 | the normal of an edge is the left normal of its direction, normalised unless zero, negated for a counter-clockwise polygon |
| LibDxPathRendering.StrokeJoin | LibDxPathRendering/PathMeshBuilder.cs:150-181 | the outer and inner points of one join are the vertex moved by, and against, the miter offset |
| LibDxPathRendering.PrepareJoins | LibDxPathRendering/PathMeshBuilder.cs:118-144 | the first loop fills the three arrays with every point and its two outward edge normals |
| LibDxPathRendering.PreparedOffset | LibDxPathRendering/PathMeshBuilder.cs:147-162 | the prepared normals of point k give exactly the stroke offset of point k |
| LibDxPathRendering.StrokeJoins | LibDxPathRendering/PathMeshBuilder.cs:146-183 | the second loop produces exactly the outer and inner rings |
| LibDxPathRendering.PolygonStroke | LibDxPathRendering/PathMeshBuilder.cs:96-183 | fewer than 3 points leave both output lists as they were; otherwise they are replaced by the n-point outer and inner rings, index-aligned with the input, each pair mirrored about its point |
| LibDxPathRendering.StrokeVertices | LibDxPathRendering/PathMeshBuilder.cs:221-234 | a stroke appends two vertices per point |
| LibDxPathRendering.RingVertices | LibDxPathRendering/PathMeshBuilder.cs:265-271 | a ring in one colour appends one vertex per point |
| LibDxPathRendering.FigureCounts | LibDxPathRendering/PathMeshBuilder.cs:209-311 | stroke: 2n vertices, plus n for a fill of another colour, and 2n triangles, plus n − 2 for any fill; fill only: n vertices and n − 2 triangles; neither: nothing |
| LibDxPathRendering.StrokeVertexCorners | LibDxPathRendering/PathMeshBuilder.cs:221-234 | the stroke vertices are outer[i] then inner[i] for every i, all in the stroke colour |
| LibDxPathRendering.RingVertexCorners | LibDxPathRendering/PathMeshBuilder.cs:295-301 | the ring vertices are the ring's points in order, in one colour |
| LibDxPathRendering.FigureVertexCorners | LibDxPathRendering/PathMeshBuilder.cs:209-301 | the figure's vertices, read as positions and colours, are the layout of its case |
| LibDxPathRendering.StrokeOnlyFigureDraws | LibDxPathRendering/PathMeshBuilder.cs:209-249 | a stroke without fill draws the band, and its indices stay inside the figure's vertices |
| LibDxPathRendering.SeparateFillFigureDraws | LibDxPathRendering/PathMeshBuilder.cs:252-286 | a stroke with a fill of another colour draws the band, then the inner ring's fan in the fill colour |
| LibDxPathRendering.SharedFillFigureDraws | LibDxPathRendering/PathMeshBuilder.cs:252-286 | a stroke with a fill of the same colour draws the band, then the inner ring's fan |
| LibDxPathRendering.FillOnlyFigureDraws | LibDxPathRendering/PathMeshBuilder.cs:289-311 | a fill alone draws the polygon's fan in the fill colour |
| LibDxPathRendering.FigureCornersDraw | LibDxPathRendering/PathMeshBuilder.cs:209-312 | in every case, the figure's triangles stay inside its vertices and draw the figure's faces |
| LibDxPathRendering.FigureDraws | LibDxPathRendering/PathMeshBuilder.cs:209-312 | the same, stated over the vertex records |
| LibDxPathRendering.FigureTrianglesShift | LibDxPathRendering/PathMeshBuilder.cs:211 | a figure's triangles from base are its triangles from 0 with base added to every index |
| LibDxPathRendering.MeshGrows | LibDxPathRendering/PathMeshBuilder.cs:209-312 | appending a figure to a mesh whose indices are in range keeps them in range and adds exactly the figure's faces |
| LibDxPathRendering.VerticesAppend | LibDxPathRendering/PathMeshBuilder.cs:211 | vertices appended with triangles indexed from the old count add exactly the faces those draw |
| LibDxPathRendering.FigureGrowsMesh | LibDxPathRendering/PathMeshBuilder.cs:201-316 | the same, for the rings PolygonStroke computes |
| LibDxPathRendering.StrokeVerticesSnoc | LibDxPathRendering/PathMeshBuilder.cs:221-234 | one more iteration of the stroke vertex loop appends the outer then the inner vertex of point i |
| LibDxPathRendering.RingVerticesSnoc | LibDxPathRendering/PathMeshBuilder.cs:295-301 | one more iteration of a ring vertex loop appends the vertex of point i |
| LibDxPathRendering.PathMeshBuilder.constructor | LibDxPathRendering/PathMeshBuilder.cs:12-26 | a new builder has no pending points, empty lists and caches, and default attributes |
| LibDxPathRendering.PathMeshBuilder.BeginFigure | LibDxPathRendering/PathMeshBuilder.cs:186-194 | stores the five attributes and discards the pending points, without touching the mesh |
| LibDxPathRendering.PathMeshBuilder.AddPoint | LibDxPathRendering/PathMeshBuilder.cs:196-199 | appends exactly one pending point |
| LibDxPathRendering.PathMeshBuilder.CloseFigure | LibDxPathRendering/PathMeshBuilder.cs:201-316 | fewer than 3 points: fails with the source's message and changes nothing; otherwise appends the figure's vertices and triangles from the old vertex count, the mesh draws its old faces followed by the figure's, the caches hold the rings when stroked, and the pending points are cleared |
| LibDxPathRendering.PathMeshBuilder.AppendFigure | LibDxPathRendering/PathMeshBuilder.cs:209-312 | the body of CloseFigure after the guard, with the same postcondition |
| LibDxPathRendering.PathMeshBuilder.AppendStrokedFigure | LibDxPathRendering/PathMeshBuilder.cs:209-288 | the stroked branch appends the layout of its case over the cached rings |
| LibDxPathRendering.PathMeshBuilder.AppendStrokeOnly | LibDxPathRendering/PathMeshBuilder.cs:221-249 | stroke vertices then ribbon |
| LibDxPathRendering.PathMeshBuilder.AppendFilledStroke | LibDxPathRendering/PathMeshBuilder.cs:221-287 | stroke vertices, ribbon, then the fill part |
| LibDxPathRendering.PathMeshBuilder.AppendStrokeFill | LibDxPathRendering/PathMeshBuilder.cs:252-286 | same colour: no vertices and the stride-2 fan from base + 1; other colour: the fill-coloured inner ring and the stride-1 fan from base + 2n |
| LibDxPathRendering.PathMeshBuilder.AppendFilledFigure | LibDxPathRendering/PathMeshBuilder.cs:289-311 | the points verbatim in the fill colour, then the fan from the old vertex count |
| LibDxPathRendering.PathMeshBuilder.Build | LibDxPathRendering/PathMeshBuilder.cs:318-324 | returns new arrays holding the accumulated lists in order, and empties the lists |
| LibDxPathRendering.PathMeshBuilder.BuildInto | LibDxPathRendering/PathMeshBuilder.cs:326-332 | the caller's lists keep their content and get the accumulated lists appended; the builder's lists are emptied |
| LibDxPathRendering.PathMeshBuilder.Reset | LibDxPathRendering/PathMeshBuilder.cs:334-338 | empties both lists, so the mesh draws nothing; the pending figure is kept |
| LibDxPathRendering.PathMeshBuilder.AppendStrokeVertices | LibDxPathRendering/PathMeshBuilder.cs:221-234 | the stroke vertex loop appends exactly the stroke vertices |
| LibDxPathRendering.PathMeshBuilder.AppendRingVertices | LibDxPathRendering/PathMeshBuilder.cs:265-271 | a ring vertex loop appends exactly the ring's vertices |
| LibDxPathRendering.PathMeshBuilder.AppendRibbon | LibDxPathRendering/PathMeshBuilder.cs:237-249 | the ribbon loop appends exactly the ribbon |
| LibDxPathRendering.PathMeshBuilder.AppendFan | LibDxPathRendering/PathMeshBuilder.cs:279-286 | a fan loop appends exactly the fan |
| LibDxPathRendering.ResetThenBuild | LibDxPathRendering/PathMeshBuilder.cs:318-338 | after Reset, Build hands out empty arrays |
| LibDxPathRendering.Corners | LibDxPathRendering/MeshVertexAndColor.cs:9 | definition: the flat vertex records read as positions and colours |
| LibDxPathRendering.ValidLaneCount | LibDxPathRendering/PathMeshBuilder.cs:34-35 | what the SIMD test needs of `Vector<float>.Count`: even and at least 2, so that each block holds at least one point pair |
| LibDxPathRendering.LaneSubtract | LibDxPathRendering/PathMeshBuilder.cs:72 | definition: `Vector.Subtract`, lane by lane |
| LibDxPathRendering.LaneAdd | LibDxPathRendering/PathMeshBuilder.cs:73 | definition: `Vector.Add`, lane by lane |
| LibDxPathRendering.LaneMultiply | LibDxPathRendering/PathMeshBuilder.cs:74 | definition: `Vector.Multiply`, lane by lane |
| LibDxPathRendering.BlockLanes | LibDxPathRendering/PathMeshBuilder.cs:47-74 | definition: the product vector of one block: edge term i + k/2 in even lane k, zero in the odd lanes |
| LibDxPathRendering.LanesLoaded | LibDxPathRendering/PathMeshBuilder.cs:47-64 | definition: lanes 2m and 2m + 1 of the four scratch buffers hold point i + m, its successor, and the zero padding |
| LibDxPathRendering.NextBlock | LibDxPathRendering/PathMeshBuilder.cs:39 | a block that starts before vectorizableCount ends at or before it |
| LibDxPathRendering.JoinPrepared | LibDxPathRendering/PathMeshBuilder.cs:118-143 | definition: entry k of the per-point arrays holds point k and the normals of its two edges |
| LibDxPathRendering.KeepJoin | LibDxPathRendering/PathMeshBuilder.cs:118-143 | writing entry i leaves every other prepared entry prepared |
| LibDxPathRendering.NewJoin | LibDxPathRendering/PathMeshBuilder.cs:118-143 | writing entry i prepares the join at i |
| LibDxPathRendering.FigureVerticesOf | LibDxPathRendering/PathMeshBuilder.cs:209-301 | definition: the vertices CloseFigure appends for each case, given the rings: two stroke-coloured vertices per point, outer then inner, then the inner ring in the fill colour for a fill of another colour; the points in the fill colour for a fill alone |
| LibDxPathRendering.FigureVertices | LibDxPathRendering/PathMeshBuilder.cs:209-301 | definition: FigureVerticesOf with the rings PolygonStroke computes |
| LibDxPathRendering.FilledStrokeAppends | LibDxPathRendering/PathMeshBuilder.cs:251-287 | appending the stroke part and then the fill part appends the figure's whole layout |
| LibDxPathRendering.FigureTriangles | LibDxPathRendering/PathMeshBuilder.cs:236-311 | definition: the triangles CloseFigure appends from base: the ribbon, then for a fill the stride-1 fan from base + 2n (fill of another colour) or the stride-2 fan from base + 1 (same colour); the stride-1 fan from base for a fill alone |
| LibDxPathRendering.PathMeshBuilder.Valid | LibDxPathRendering/PathMeshBuilder.cs:21-22 | the builder's invariant: every accumulated index names an accumulated vertex |
| LibDxPathRendering.PathMeshBuilder.Attributes | LibDxPathRendering/PathMeshBuilder.cs:12-18 | definition: the five figure fields BeginFigure sets |
| LibDxPathRendering.PathMeshBuilder.Drawn | LibDxPathRendering/PathMeshBuilder.cs:21-22 | definition: the faces the accumulated mesh draws, the view every builder contract is stated in |
| DxPolygonDraw.IsClockwise | DxPolygonDraw/PathMeshBuilder.cs:27-37 | true iff the wraparound shoelace sum is positive, with no guard; for fewer than 3 points it is false all the same |
| DxPolygonDraw.JoinOffsets | DxPolygonDraw/PathMeshBuilder.cs:80-155 | one offset per point |
| DxPolygonDraw.StrokeOuterRing | DxPolygonDraw/PathMeshBuilder.cs:80-155 | the offset loop yields exactly n outer points |
| DxPolygonDraw.StrokeInnerRing | DxPolygonDraw/PathMeshBuilder.cs:80-155 | the offset loop yields exactly n inner points |
| DxPolygonDraw.RingPointsAt | DxPolygonDraw/PathMeshBuilder.cs:82-154 | ring point i is point i moved by, or against, the join offset between its wraparound neighbours |
| DxPolygonDraw.StrokeRingsMirrored | DxPolygonDraw/PathMeshBuilder.cs:142-153 | each outer/inner pair is mirrored about its input point, in both branches |
| DxPolygonDraw.JoinOffsetFlipsWithWinding | DxPolygonDraw/PathMeshBuilder.cs:119-126 | flipping the winding flips the join offset |
| DxPolygonDraw.EdgeNormalOf | DxPolygonDraw/PathMeshBuilder.cs:89-126 | the edge normal is the left normal of the direction, divided by its length when that is positive, negated when not clockwise |
| DxPolygonDraw.MiterJoin | DxPolygonDraw/PathMeshBuilder.cs:128-154 | the outer and inner points are the current point moved by, and against, the miter offset of the two normals |
| DxPolygonDraw.OffsetJoin | DxPolygonDraw/PathMeshBuilder.cs:85-154 | one iteration of the offset loop computes the point moved by, and against, its join offset |
| DxPolygonDraw.Neighbours | DxPolygonDraw/PathMeshBuilder.cs:82-83 | the two modulo expressions are the wraparound previous and next indices |
| DxPolygonDraw.StrokeVertices | DxPolygonDraw/PathMeshBuilder.cs:173-186 | a stroke appends two vertices per point |
| DxPolygonDraw.RingVertices | DxPolygonDraw/PathMeshBuilder.cs:230-236 | a ring in one colour appends one vertex per point |
| DxPolygonDraw.FacesDrawnOverdrawFill | DxPolygonDraw/PathMeshBuilder.cs:204-247 | the demo draws the library's faces, except that a fill of another colour is preceded by the inner ring's fan in the stroke colour |
| DxPolygonDraw.FigureCounts | DxPolygonDraw/PathMeshBuilder.cs:173-282 | stroke: 2n vertices, plus n for a fill of another colour, and 2n triangles, plus n − 2 for a fill of the same colour or 2(n − 2) for one of another colour; fill only: n and n − 2 |
| DxPolygonDraw.CapacityIsExact | DxPolygonDraw/PathMeshBuilder.cs:158-170 | the vertex and index capacities reserved before appending equal the list lengths after appending, for stroked and for fill-only figures |
| DxPolygonDraw.StrokeVertexCorners | DxPolygonDraw/PathMeshBuilder.cs:173-186 | the stroke vertices are outer[i] then inner[i] for every i, all in the stroke colour |
| DxPolygonDraw.RingVertexCorners | DxPolygonDraw/PathMeshBuilder.cs:265-271 | the ring vertices are the ring's points in order, in one colour |
| DxPolygonDraw.FigureVertexCorners | DxPolygonDraw/PathMeshBuilder.cs:173-271 | the figure's vertices, read as positions and colours, are the layout of its case |
| DxPolygonDraw.StrokeOnlyFigureDraws | DxPolygonDraw/PathMeshBuilder.cs:173-201 | a stroke without fill draws the band between the rings |
| DxPolygonDraw.SharedFillFigureDraws | DxPolygonDraw/PathMeshBuilder.cs:204-218 | a fill of the stroke colour adds the inner ring's fan after the band |
| DxPolygonDraw.SeparateFillFigureDraws | DxPolygonDraw/PathMeshBuilder.cs:204-247 | a fill of another colour adds the inner ring's fan in the stroke colour, then in the fill colour |
| DxPolygonDraw.FillOnlyFigureDraws | DxPolygonDraw/PathMeshBuilder.cs:250-282 | a fill alone draws the polygon's fan in the fill colour |
| DxPolygonDraw.FigureCornersDraw | DxPolygonDraw/PathMeshBuilder.cs:60-282 | in every case, the figure's triangles stay inside its vertices and draw the figure's faces |
| DxPolygonDraw.MeshGrows | DxPolygonDraw/PathMeshBuilder.cs:60-282 | appending a figure keeps every index in range and adds exactly the figure's faces |
| DxPolygonDraw.VerticesAppend | DxPolygonDraw/PathMeshBuilder.cs:62 | vertices appended with triangles indexed from the old count add exactly the faces those draw |
| DxPolygonDraw.FigureGrowsMesh | DxPolygonDraw/PathMeshBuilder.cs:54-286 | the same, for the rings of the inline offset loop |
| DxPolygonDraw.StrokeVerticesSnoc | DxPolygonDraw/PathMeshBuilder.cs:173-186 | one more iteration of the stroke vertex loop appends the outer then the inner vertex of point i |
| DxPolygonDraw.RingVerticesSnoc | DxPolygonDraw/PathMeshBuilder.cs:230-236 | one more iteration of a ring vertex loop appends the vertex of point i |
| DxPolygonDraw.PathMeshBuilder.constructor | DxPolygonDraw/PathMeshBuilder.cs:11-25 | a new builder has no pending points, empty lists and caches, and default attributes |
| DxPolygonDraw.PathMeshBuilder.BeginFigure | DxPolygonDraw/PathMeshBuilder.cs:39-47 | stores the five attributes and discards the pending points, without touching the mesh |
| DxPolygonDraw.PathMeshBuilder.AddPoint | DxPolygonDraw/PathMeshBuilder.cs:49-52 | appends exactly one pending point |
| DxPolygonDraw.PathMeshBuilder.CloseFigure | DxPolygonDraw/PathMeshBuilder.cs:54-286 | fewer than 3 points: nothing changes, and the pending points stay; otherwise appends the figure's vertices and triangles from the old vertex count, the mesh draws its old faces followed by the figure's, the caches hold the rings when stroked, and the pending points are cleared |
| DxPolygonDraw.PathMeshBuilder.AppendFigure | DxPolygonDraw/PathMeshBuilder.cs:60-282 | the body of CloseFigure after the guard, with the same postcondition |
| DxPolygonDraw.PathMeshBuilder.AppendFigureParts | DxPolygonDraw/PathMeshBuilder.cs:60-282 | the stroked and unstroked branches append the layout of their case over the caches, and only the stroked branch recomputes the caches |
| DxPolygonDraw.PathMeshBuilder.AppendStroke | DxPolygonDraw/PathMeshBuilder.cs:60-248 | once the caches hold the rings, the stroked branch appends the stroke's vertices and triangles, plus the fill's when the figure is filled |
| DxPolygonDraw.PathMeshBuilder.AppendUnstroked | DxPolygonDraw/PathMeshBuilder.cs:250-282 | without a stroke, a fill appends its layout and no fill appends nothing |
| DxPolygonDraw.PathMeshBuilder.ComputeStrokeRings | DxPolygonDraw/PathMeshBuilder.cs:66-155 | clearing the caches, testing the winding and running the offset loop leaves exactly the two rings in the caches |
| DxPolygonDraw.PathMeshBuilder.AppendStrokeRings | DxPolygonDraw/PathMeshBuilder.cs:80-155 | the offset loop appends the outer ring to the outer cache and the inner ring to the inner cache |
| DxPolygonDraw.PathMeshBuilder.AppendJoin | DxPolygonDraw/PathMeshBuilder.cs:82-154 | iteration i appends ring point i to each cache |
| DxPolygonDraw.PathMeshBuilder.AppendStrokedFigure | DxPolygonDraw/PathMeshBuilder.cs:172-248 | the stroked branch appends the layout of its case over the cached rings |
| DxPolygonDraw.PathMeshBuilder.AppendStrokeOnly | DxPolygonDraw/PathMeshBuilder.cs:173-201 | stroke vertices then ribbon |
| DxPolygonDraw.PathMeshBuilder.AppendSharedFilledStroke | DxPolygonDraw/PathMeshBuilder.cs:173-218 | stroke vertices, ribbon and the stride-2 fan from base + 1 |
| DxPolygonDraw.PathMeshBuilder.AppendSeparateFilledStroke | DxPolygonDraw/PathMeshBuilder.cs:173-247 | stroke vertices, ribbon, the stride-2 fan, then the fill-coloured inner ring and its fan from the vertex count at that moment |
| DxPolygonDraw.PathMeshBuilder.AppendFilledFigure | DxPolygonDraw/PathMeshBuilder.cs:250-282 | the points verbatim in the fill colour, then the fan from the old vertex count |
| DxPolygonDraw.PathMeshBuilder.Build | DxPolygonDraw/PathMeshBuilder.cs:288-296 | returns new arrays holding the accumulated lists in order, and empties the lists |
| DxPolygonDraw.PathMeshBuilder.AppendStrokeVertices | DxPolygonDraw/PathMeshBuilder.cs:173-186 | the stroke vertex loop appends exactly the stroke vertices |
| DxPolygonDraw.PathMeshBuilder.AppendRingVertices | DxPolygonDraw/PathMeshBuilder.cs:230-236 | a ring vertex loop appends exactly the ring's vertices |
| DxPolygonDraw.PathMeshBuilder.AppendRibbon | DxPolygonDraw/PathMeshBuilder.cs:189-201 | the ribbon loop appends exactly the ribbon |
| DxPolygonDraw.PathMeshBuilder.AppendFan | DxPolygonDraw/PathMeshBuilder.cs:211-218 | a fan loop appends exactly the fan |
| DxPolygonDraw.Corners | DxPolygonDraw/MeshVertexAndColor.cs:9 | definition: the demo's vertex records (a MeshVertex and a MeshColor) read as positions and colours |
| DxPolygonDraw.UnitIfPositive | DxPolygonDraw/PathMeshBuilder.cs:98-111 | definition: an edge vector divided by its length when that length is positive, left as it is otherwise |
| DxPolygonDraw.EdgeNormal | DxPolygonDraw/PathMeshBuilder.cs:89-126 | definition: the scalar normal code as a vector: the direction from one point to the next, normalised when its length is positive, turned left, negated unless clockwise |
| DxPolygonDraw.JoinOffset | DxPolygonDraw/PathMeshBuilder.cs:128-154 | definition: the inline bisector code: the same miter offset and 0.0001 fallback as the library, over the demo's edge normals |
| DxPolygonDraw.OuterRingOf | DxPolygonDraw/PathMeshBuilder.cs:80-155 | definition: the outer cache the offset loop fills, for a given winding |
| DxPolygonDraw.InnerRingOf | DxPolygonDraw/PathMeshBuilder.cs:80-155 | definition: the inner cache the offset loop fills, for a given winding |
| DxPolygonDraw.FigureVerticesOf | DxPolygonDraw/PathMeshBuilder.cs:172-271 | definition: the vertices the demo appends for each case, given the rings (the same layout as the library, over the demo's record) |
| DxPolygonDraw.FigureVertices | DxPolygonDraw/PathMeshBuilder.cs:172-271 | definition: FigureVerticesOf with the rings the inline loop computes |
| DxPolygonDraw.CachedRingsVertices | DxPolygonDraw/PathMeshBuilder.cs:172-236 | when the figure is stroked and the caches hold its rings, the layout over the caches is the figure's layout |
| DxPolygonDraw.FigureTriangles | DxPolygonDraw/PathMeshBuilder.cs:188-281 | definition: the demo's triangles from base: the ribbon; for a fill, the stride-2 fan from base + 1, then, for a fill of another colour, the stride-1 fan from base + 2n; the stride-1 fan from base for a fill alone |
| DxPolygonDraw.FacesDrawnOf | DxPolygonDraw/PathMeshBuilder.cs:188-281 | definition: the faces those triangles draw: the band; for a fill, the inner ring's fan in the stroke colour, then again in the fill colour when the colours differ; the points' fan for a fill alone |
| DxPolygonDraw.FacesDrawn | DxPolygonDraw/PathMeshBuilder.cs:188-281 | definition: FacesDrawnOf with the rings the inline loop computes |
| DxPolygonDraw.RequiredVertexCapacity | DxPolygonDraw/PathMeshBuilder.cs:158-160 | definition: the vertex capacity reserved: 2n more for a stroke, n more again for a fill of another colour, n more for a fill alone (256) |
| DxPolygonDraw.RequiredIndicesCapacity | DxPolygonDraw/PathMeshBuilder.cs:165-167 | definition: the triangle capacity reserved: 2n more for a stroke, (n − 2) or 2(n − 2) more for a fill, n − 2 more for a fill alone (260) |
| DxPolygonDraw.PathMeshBuilder.Valid | DxPolygonDraw/PathMeshBuilder.cs:20-25 | the builder's invariant: every accumulated index names an accumulated vertex, and the two caches have equal length |
| DxPolygonDraw.PathMeshBuilder.Attributes | DxPolygonDraw/PathMeshBuilder.cs:11-17 | definition: the five figure fields BeginFigure sets |
| DxPolygonDraw.PathMeshBuilder.Drawn | DxPolygonDraw/PathMeshBuilder.cs:20-21 | definition: the faces the accumulated mesh draws |
| Variants.WindingTestsAgree | DxPolygonDraw/PathMeshBuilder.cs:27-37 | the library's guarded SIMD test and the demo's plain loop return the same answer on every polygon |
| Variants.UnitsAgree | DxPolygonDraw/PathMeshBuilder.cs:97-111 | dividing by the length when it is positive is normalising a non-zero vector, for a Euclidean-like length |
| Variants.OffsetsAgree | DxPolygonDraw/PathMeshBuilder.cs:80-155 | the inline offset loop computes PolygonStroke's offsets, point by point |
| Variants.RingsAgree | DxPolygonDraw/PathMeshBuilder.cs:146-153 | so both builders put the same rings in their caches |
| Variants.VerticesAgree | DxPolygonDraw/PathMeshBuilder.cs:173-271 | given the same rings, both builders append vertices with the same positions and colours, in the same order |
| Variants.TrianglesAgree | DxPolygonDraw/PathMeshBuilder.cs:204-247 | the demo's triangles are the library's, except that a fill of another colour gets the stride-2 fan inserted after the ribbon |
| Variants.FacesAgree | DxPolygonDraw/PathMeshBuilder.cs:204-247 | for a Euclidean-like length, the demo draws the library's faces, except that a fill of another colour is preceded by the inner ring's fan in the stroke colour |
| Variants.EuclideanLike | DxPolygonDraw/PathMeshBuilder.cs:98-99 | what `Math.Sqrt` of a squared length has beyond IsLength: never negative and zero on the zero vector |

## Left out

- Floating point: the model computes over reals. `float` rounding and the `(float)`
  casts of the demo are not modelled. The sum is accumulated in `double` in the source.
- Square root: `Vector2.Length` and `Math.Sqrt` are a parameter `length`. `IsLength`
  only asks that it be non-zero on non-zero vectors and the same for v and −v.
  Widths and angles of the stroke are not proved.
- Variants.OffsetsAgree: needs the length to be zero on the zero vector and never
  negative as well. Only such a length makes the demo's "length > 0" and the library's
  "vector ≠ zero" pick the same vectors.
- LibDxPathRendering.IsClockwise: `Vector<float>.Count` is a parameter `laneCount`,
  required to be even and at least 2, as it is on every SIMD width .NET supports. The
  lanes are sequences and the four per-block scratch buffers are arrays.
- LibDxPathRendering.PolygonStroke: the `prevVectors` and `nextVectors` arrays are not
  kept. Each edge direction is normalised and turned into its normal in one step
  (`NormalOfEdge`), and only the normals are stored.
- Lists are `seq` values. `Clear` and `Add` reassign the field. PolygonStroke's output
  lists and BuildInto's caller lists are values passed in and returned, so the model
  does not capture aliasing, neither between the caller's lists and the builder's own
  nor among PolygonStroke's own arguments. `PolygonStroke` is public. Passed the same
  list as its input and one output, it clears the input before reading it and emits
  nothing; passed one list for both outputs, it interleaves outer and inner points. The
  model returns the rings of the original input in both cases. CloseFigure passes three
  distinct lists, so the builders are not affected.
- List `Capacity`: reserving capacity has no observable effect and is not modelled as
  state (DxPolygonDraw/PathMeshBuilder.cs:70-74, 158-170, 255-262). DxPolygonDraw.CapacityIsExact
  only checks the reserved amounts against what is then appended.
- Index width: indices are `nat`, not `uint`. Every emitted index is proved to be below
  the vertex count after the figure. A .NET list holds fewer than 2^31 elements, so no
  index or intermediate index sum can reach 2^32, and wrap-around cannot happen.
- The renderers (`MeshRenderer.cs`), the WPF windows and the benchmark program are
  not part of this model: they are GPU calls, UI glue and a timing loop.

Where the demo builder differs from the library builder, the model follows each one's code:
- The demo's CloseFigure returns silently for fewer than 3 points, while the library's
  throws.
- For a fill of another colour, the demo also emits the stride-2 fan in the stroke colour.
