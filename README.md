# Polar processor, modelled in Dafny

The polar processor splits a JTS polygon that winds round the north or south
pole. The pipeline is `splitPolar`:

1. `isArctic` chooses the pole from the polygon's envelope.
2. `preSplitTranslatePolygon` projects the polygon from that pole into a
   plane. In that plane the pole sits at (180, 0) and the antimeridian becomes
   a straight seam.
3. `isPolar` decides whether the polygon must be split, by projecting it and
   then shifting the plane by a half turn so that the pole is the origin. The
   polygon is split when its exterior ring does not touch the pole and meets
   the mask segment from (0, 0) to (0, 360) in an odd number of distinct points.
4. A polygon that must be split is cut along the seam by `split180`.
5. `addPolarCoordinate` gives the cut explicit pole vertices at (-180, 0) and
   (180, 0).
6. `postSplitTranslateGeometry` maps the cut back to longitude and latitude.

Modules, in dependency order:

- `Wrappers` (`wrappers.dfy`): `Option`, and `Result` whose `Failure` stands
  for the walkers' `IllegalStateException`.
- `Numerics` (`numerics.dfy`): the floating-point primitives as a `Kernel`
  parameter, and the two hand-written angle wraps.
- `Geometries` (`geometries.dfy`):
  - the JTS geometry kinds;
  - exact segment containment, which stands in for JTS `intersects`;
  - the `Shape` of a geometry (kinds and member counts);
  - its `Parts` (its coordinate sequences, in order, with their roles).
- `Projection` (`projection.dfy`): the forward and inverse projections, point
  by point and ring by ring.
- `PoleVertices` (`pole_vertices.dfy`): pole-vertex insertion into a
  coordinate sequence and a polygon.
- `Walkers` (`walkers.dfy`): the two recursive geometry walkers.
  - `addPolarCoordinate` is `WithPolarCoordinates` and the method
    `AddPolarCoordinate`.
  - `postSplitTranslateGeometry` is `Unprojected` and the method
    `PostSplitTranslateGeometry`.
- `Classifier` (`classifier.dfy`): `isArctic`, `shiftCoordinate`, the mask
  crossing and `isPolar`.
- `PolarProcessor` (`polar_processor.dfy`): `splitPolar`.

Each loop of the source is a Dafny method proved against a specification
function: for example `ensures r == SplitDecision(p, k)` and
`ensures r == WithPolarCoordinates(g)`. The properties are proved as lemmas
about those functions.

## Model

| member | source | states |
|---|---|---|
| Numerics.Fold180 | src/main/java/edu/colorado/cires/cmg/polarprocessor/PolarProcessor.java:41-49 | the wrap after a shift moves the value by zero or one full turn, lands anything up to a turn above the range in (-180, 180], and leaves (-180, 180] alone |
| Numerics.FoldAngle | src/main/java/edu/colorado/cires/cmg/polarprocessor/PolarProcessor.java:70-75 | the two-sided wrap moves the angle by at most one turn, lands anything within one turn of the range in [-180, 180], and leaves [-180, 180] alone |
| Projection.PolarDistance | src/main/java/edu/colorado/cires/cmg/polarprocessor/PolarProcessor.java:35-39 | the distance from the chosen pole lies in [0, 180] for a proper latitude, and is 0 exactly at that pole |
| Projection.PolarAngle | src/main/java/edu/colorado/cires/cmg/polarprocessor/PolarProcessor.java:41-44 | the planar angle is the longitude turned by 90 degrees (or by -270), within (-180, 180] |
| Projection.PlanarX | src/main/java/edu/colorado/cires/cmg/polarprocessor/PolarProcessor.java:46-49 | the unrounded planar x of a proper latitude lies in (-180, 180] |
| Projection.PlanarY | src/main/java/edu/colorado/cires/cmg/polarprocessor/PolarProcessor.java:50 | the unrounded planar y of a proper latitude lies in [-180, 180] |
| Projection.PreSplitTranslateCoordinate | src/main/java/edu/colorado/cires/cmg/polarprocessor/PolarProcessor.java:30-53 | every proper latitude lands in the planar square [-180, 180]^2, and the chosen pole lands on (180, 0) whatever its longitude |
| Projection.PlanarRadius | src/main/java/edu/colorado/cires/cmg/polarprocessor/PolarProcessor.java:61-67 | the planar distance from the pole is never negative |
| Projection.FoldedAngle | src/main/java/edu/colorado/cires/cmg/polarprocessor/PolarProcessor.java:68-75 | the folded planar angle lies in [-180, 180] |
| Projection.InverseLongitude | src/main/java/edu/colorado/cires/cmg/polarprocessor/PolarProcessor.java:77-86 | at the pole or on the seam the longitude is -180 for a negative planar x and +180 otherwise; elsewhere it is the folded angle; it always lies in [-180, 180] |
| Projection.InverseLatitude | src/main/java/edu/colorado/cires/cmg/polarprocessor/PolarProcessor.java:88-92 | the latitude never passes the chosen pole, and radius 0 is the pole itself |
| Projection.PostSplitTranslateCoordinate | src/main/java/edu/colorado/cires/cmg/polarprocessor/PolarProcessor.java:56-95 | the rounded longitude lies in [-180, 180] and the rounded latitude does not pass the chosen pole |
| Projection.PostSplitSeam | src/main/java/edu/colorado/cires/cmg/polarprocessor/PolarProcessor.java:77-86 | on a tie the rounded longitude is exactly -180 or +180, by the sign of the planar x, so the two sides of the cut return to the two sides of the antimeridian |
| Projection.PoleVerticesUnproject | src/main/java/edu/colorado/cires/cmg/polarprocessor/PolarProcessor.java:56-95 | the pole vertices (-180, 0) and (180, 0) map back to the chosen geographic pole at longitude -180 and +180 |
| Projection.PreSplitTranslateLineString | src/main/java/edu/colorado/cires/cmg/polarprocessor/PolarProcessor.java:97-103 | the ring keeps its length, each coordinate is projected in its place, and a ring JTS accepts stays one it accepts |
| Projection.PreSplitTranslatePolygon | src/main/java/edu/colorado/cires/cmg/polarprocessor/PolarProcessor.java:136-142 | the result is the polygon with its exterior and every hole projected, hole count kept |
| Projection.PostSplitTranslateCoordinateArray | src/main/java/edu/colorado/cires/cmg/polarprocessor/PolarProcessor.java:105-111 | the sequence keeps its length, each coordinate is unprojected in its place, and a ring JTS accepts stays one it accepts |
| Projection.PostSplitTranslatePolygon | src/main/java/edu/colorado/cires/cmg/polarprocessor/PolarProcessor.java:121-127 | the result is the polygon with its exterior and every hole unprojected, hole count kept |
| Projection.ProjectionsKeepRings | src/main/java/edu/colorado/cires/cmg/polarprocessor/PolarProcessor.java:97-111 | both projections keep a ring's length and its validity as a JTS linear ring |
| PoleVertices.WithPoleVerticesLength | src/main/java/edu/colorado/cires/cmg/polarprocessor/PolarProcessor.java:154-173 | at most one vertex is added per segment: n coordinates become between n and 2n - 1 |
| PoleVertices.WithPoleVerticesEnds | src/main/java/edu/colorado/cires/cmg/polarprocessor/PolarProcessor.java:154-173 | the first and the last coordinate stay at the two ends |
| PoleVertices.WithPoleVerticesPrefix | src/main/java/edu/colorado/cires/cmg/polarprocessor/PolarProcessor.java:154-173 | insertion is online: a prefix of the input gives a prefix of the output |
| PoleVertices.WithPoleVerticesKeepsInput | src/main/java/edu/colorado/cires/cmg/polarprocessor/PolarProcessor.java:154-173 | every input coordinate appears in the output, in input order, the first at the start and the last at the end |
| PoleVertices.WithPoleVerticesBetween | src/main/java/edu/colorado/cires/cmg/polarprocessor/PolarProcessor.java:160-168 | between two consecutive input coordinates the output holds exactly (-180, 0) when their segment contains it, else (180, 0) when it contains that, else nothing |
| PoleVertices.WithPoleVerticesKeepsValidRing | src/main/java/edu/colorado/cires/cmg/polarprocessor/PolarProcessor.java:154-199 | a closed ring of four or more points stays a closed ring of four or more points, so the ring rebuilt from it is one JTS accepts |
| PoleVertices.AddPolarCoordinateCoordinateArray | src/main/java/edu/colorado/cires/cmg/polarprocessor/PolarProcessor.java:154-173 | the linked-list loop produces the input with pole vertices inserted, tested against the previous input coordinate |
| PoleVertices.ToRing | src/main/java/edu/colorado/cires/cmg/polarprocessor/PolarProcessor.java:183-189 | a hole is copied coordinate for coordinate |
| PoleVertices.AddPolarCoordinatePolygon | src/main/java/edu/colorado/cires/cmg/polarprocessor/PolarProcessor.java:191-199 | pole vertices go into the exterior ring only; the holes come back unchanged, as many as there were |
| Wrappers.Collect | src/main/java/edu/colorado/cires/cmg/polarprocessor/PolarProcessor.java:233-237 | a collection succeeds exactly when every member does, and then holds every member's result in order |
| Wrappers.CollectFirstFailure | src/main/java/edu/colorado/cires/cmg/polarprocessor/PolarProcessor.java:233-237 | the error is the one thrown by the first member that fails |
| Walkers.WithPolarCoordinatesFails | src/main/java/edu/colorado/cires/cmg/polarprocessor/PolarProcessor.java:215-241 | addPolarCoordinate throws exactly when the geometry holds, at any depth, a kind none of its branches accepts |
| Walkers.WithPolarCoordinatesShape | src/main/java/edu/colorado/cires/cmg/polarprocessor/PolarProcessor.java:215-241 | every node keeps its kind and member count, except that a LinearRing comes back as a LineString and a MultiPoint as a collection of points |
| Walkers.WithPolarCoordinatesSixKinds | src/main/java/edu/colorado/cires/cmg/polarprocessor/PolarProcessor.java:215-241 | the result is built only from Point, LineString, Polygon, MultiLineString, MultiPolygon and GeometryCollection |
| Walkers.WithPolarCoordinatesParts | src/main/java/edu/colorado/cires/cmg/polarprocessor/PolarProcessor.java:154-241 | every coordinate sequence keeps its place and role; exterior rings and lines get pole vertices; holes and points come back unchanged |
| Walkers.AddPolarCoordinateMultiPolygon | src/main/java/edu/colorado/cires/cmg/polarprocessor/PolarProcessor.java:201-207 | each polygon of the collection gets its pole vertices, in order |
| Walkers.AddPolarCoordinateLineStrings | src/main/java/edu/colorado/cires/cmg/polarprocessor/PolarProcessor.java:222-228 | each line of a MultiLineString gets its pole vertices, in order |
| Walkers.AddPolarCoordinatePoints | src/main/java/edu/colorado/cires/cmg/polarprocessor/PolarProcessor.java:231-237 | a MultiPoint, walked as a collection, becomes a collection of its points in order |
| Walkers.AddPolarCoordinate | src/main/java/edu/colorado/cires/cmg/polarprocessor/PolarProcessor.java:215-241 | the instanceof dispatch, with the member loops, computes WithPolarCoordinates, error included |
| Walkers.AddPolarCoordinateSplitRing | src/test/java/edu/colorado/cires/cmg/polarprocessor/PolarProcessorTest.java:37-44 | the two halves of a cut ring get (-180, 0) and (180, 0) inserted on their seam edges |
| Walkers.UnprojectedFails | src/main/java/edu/colorado/cires/cmg/polarprocessor/PolarProcessor.java:250-276 | postSplitTranslateGeometry throws exactly when the geometry holds, at any depth, a kind none of its branches accepts |
| Walkers.UnprojectedShape | src/main/java/edu/colorado/cires/cmg/polarprocessor/PolarProcessor.java:250-276 | every node keeps its kind and member count, except that a LinearRing comes back as a LineString and a MultiPoint as a collection of points |
| Walkers.UnprojectedParts | src/main/java/edu/colorado/cires/cmg/polarprocessor/PolarProcessor.java:105-127 | every coordinate sequence, a point's included, keeps its place, role and length, and each coordinate is unprojected in its place |
| Walkers.PostSplitTranslateMultiPolygon | src/main/java/edu/colorado/cires/cmg/polarprocessor/PolarProcessor.java:278-284 | each polygon of the collection is unprojected, in order |
| Walkers.PostSplitTranslateLineStrings | src/main/java/edu/colorado/cires/cmg/polarprocessor/PolarProcessor.java:257-263 | each line of a MultiLineString is unprojected, in order |
| Walkers.PostSplitTranslatePoints | src/main/java/edu/colorado/cires/cmg/polarprocessor/PolarProcessor.java:266-272 | a MultiPoint, walked as a collection, becomes a collection of its unprojected points in order |
| Walkers.PostSplitTranslateGeometry | src/main/java/edu/colorado/cires/cmg/polarprocessor/PolarProcessor.java:250-276 | the instanceof dispatch, with the member loops, computes Unprojected, error included |
| Classifier.MaxLat | src/main/java/edu/colorado/cires/cmg/polarprocessor/PolarProcessor.java:298-303 | the envelope's maximum latitude is at least every vertex's and is some vertex's |
| Classifier.MinLat | src/main/java/edu/colorado/cires/cmg/polarprocessor/PolarProcessor.java:298-303 | the envelope's minimum latitude is at most every vertex's and is some vertex's |
| Classifier.IsArcticVertices | src/main/java/edu/colorado/cires/cmg/polarprocessor/PolarProcessor.java:298-303 | isArctic holds exactly when the exterior ring is non-empty and reaches at least as far north as it reaches south, that is when some vertex lies at least as far north as every vertex lies south; the empty ring, with its null envelope, is never arctic |
| Classifier.IsArcticSameCoordinates | src/main/java/edu/colorado/cires/cmg/polarprocessor/PolarProcessor.java:298-303 | the pole chosen depends only on the multiset of exterior coordinates, not on their order or the holes |
| Classifier.IsArcticHemispheres | src/main/java/edu/colorado/cires/cmg/polarprocessor/PolarProcessor.java:298-303 | a ring of northern latitudes is arctic; a ring of southern latitudes with one strictly south is antarctic; an empty ring is antarctic; a tie goes north |
| Classifier.IsArcticNorthPole | src/main/java/edu/colorado/cires/cmg/polarprocessor/PolarProcessor.java:298-303 | a ring of proper latitudes with a vertex on the north pole is arctic |
| Classifier.ShiftCoordinate | src/main/java/edu/colorado/cires/cmg/polarprocessor/PolarProcessor.java:305-314 | y is kept, x moves by a half turn into (-180, 180], and both (180, 0) and (-180, 0) land on the origin |
| Classifier.Shifted | src/main/java/edu/colorado/cires/cmg/polarprocessor/PolarProcessor.java:305-314 | the ring is shifted coordinate by coordinate and stays a valid ring |
| Classifier.OnMask | src/main/java/edu/colorado/cires/cmg/polarprocessor/PolarProcessor.java:320-321 | the mask is exactly the y axis between 0 and 360 |
| Classifier.MaskCrossingExact | src/main/java/edu/colorado/cires/cmg/polarprocessor/PolarProcessor.java:338-341 | a reported crossing is the one point the segment shares with the mask; no crossing means no common point or more than one |
| Classifier.MaskCrossingsMembers | src/main/java/edu/colorado/cires/cmg/polarprocessor/PolarProcessor.java:325-343 | a point is in the crossing set exactly when some segment crosses the mask at that single point |
| Classifier.TouchesPoleIff | src/main/java/edu/colorado/cires/cmg/polarprocessor/PolarProcessor.java:326-337 | the ring touches the pole exactly when one of its shifted vertices is the origin or one of its segments passes through it |
| Classifier.IsPolar | src/main/java/edu/colorado/cires/cmg/polarprocessor/PolarProcessor.java:316-348 | the loop with its early returns and crossing set computes SplitDecision: nothing when the ring touches the pole, otherwise the projected polygon exactly when the number of distinct crossings is odd |
| Classifier.PoleVertexNeverSplits | src/main/java/edu/colorado/cires/cmg/polarprocessor/PolarProcessor.java:326-329 | a polygon with a vertex on its own pole is never split |
| Classifier.NotPolarOnPole | src/test/java/edu/colorado/cires/cmg/polarprocessor/PolarProcessorTest.java:118-119 | the ring (0 60, 180 60, 90 60, 0 60), whose first edge passes over the pole, is not split |
| Classifier.TangentTouchSplits | src/main/java/edu/colorado/cires/cmg/polarprocessor/PolarProcessor.java:338-346 | as written, a ring that only touches the seam ray at one vertex, from the left, is split (see Findings) |
| Classifier.CorrectedHalfPlaneNeverSplits | src/main/java/edu/colorado/cires/cmg/polarprocessor/PolarProcessor.java:338-346 | with the half-open crossing rule, a ring that stays on one side of the seam's line is never split, even when it touches the seam |
| Classifier.CorrectedAgreesOffAxis | src/main/java/edu/colorado/cires/cmg/polarprocessor/PolarProcessor.java:325-346 | when no shifted vertex lies on the y axis and no two segments meet the mask at the same point, the half-open rule decides exactly as isPolar does |
| Classifier.CrossingCountsAgree | src/main/java/edu/colorado/cires/cmg/polarprocessor/PolarProcessor.java:338-344 | under those conditions the number of distinct crossing points isPolar collects equals the number of segments crossing the seam by the half-open rule |
| Classifier.SegmentRulesAgree | src/main/java/edu/colorado/cires/cmg/polarprocessor/PolarProcessor.java:338-340 | for a segment with neither end on the y axis, meeting the mask in one point and crossing the seam by the half-open rule coincide |
| Classifier.DiamondSplitsEitherWay | src/test/java/edu/colorado/cires/cmg/polarprocessor/PolarProcessorTest.java:20-21 | the projection of the arctic circle at latitude 70, (180 -20, 160 0, 180 20, -160 0, 180 -20), is split both by isPolar as written and by the half-open rule |
| PolarProcessor.SplitPolar | src/main/java/edu/colorado/cires/cmg/polarprocessor/PolarProcessor.java:292-296 | splitPolar is isPolar, then split180, addPolarCoordinate and postSplitTranslateGeometry from the pole isArctic chose |
| PolarProcessor.SplitPolarOutcome | src/main/java/edu/colorado/cires/cmg/polarprocessor/PolarProcessor.java:292-296 | the result is empty exactly when isPolar says no split, and throws exactly when the cut holds a kind the walkers reject; a cut the first walker accepts is always accepted by the second |
| PolarProcessor.SplitPolarShape | src/main/java/edu/colorado/cires/cmg/polarprocessor/PolarProcessor.java:292-296 | the returned geometry has the cut's kinds and member counts, with LinearRings and MultiPoints walked as their branches make them |
| PolarProcessor.SplitPolarParts | src/main/java/edu/colorado/cires/cmg/polarprocessor/PolarProcessor.java:292-296 | every coordinate sequence of the cut comes back in its place and role, with pole vertices on exteriors and lines, and every coordinate unprojected |
| PolarProcessor.CorrectedSplitPolarHalfPlane | src/main/java/edu/colorado/cires/cmg/polarprocessor/PolarProcessor.java:292-346 | with the corrected decision, a polygon whose shifted projection stays on one side of the seam's line is never split |

## Left out

- Floating point. Coordinates are exact reals. `Math.cos`, `Math.sin`,
  `Math.atan2`, `Math.sqrt`, the degree/radian conversions and
  `Precision.round(v, 11)` are fields of a `Numerics.Kernel` parameter. Only
  their ranges are assumed, and rounding is assumed monotone and exact on the
  whole numbers 0, ±90 and ±180. NaN, infinities and signed zero are not
  modelled. `Math.pow(v, 2)` is `v * v`.
- `split180` (lines 149-152) wraps the projected polygon in a Spatial4j
  `JtsGeometry` built with `JtsSpatialContext.GEO` and the flags `true,
  false`, and returns the geometry that object holds. The library's dateline cutting is not part of this
  model: the pipeline takes that step as a function parameter.
- Empty points are not modelled: a `Point` always holds a coordinate. On a
  `POINT EMPTY` inside the cut, `postSplitTranslateGeometry` would pass the
  null coordinate of line 265 to `postSplitTranslateCoordinate`, which throws
  a `NullPointerException` at line 57; the model has no such error path. The
  cut is built from a polygon, so it is not expected to hold an empty point.
  Empty line strings, rings and polygons are modelled as empty sequences.
- JTS `intersects` between a two-point line string and a point is exact
  segment containment. JTS `intersection` with the mask is the exact single
  common point, or none when the segment misses the mask or overlaps it along
  the axis. JTS's own floating-point rounding of that point is not modelled.
- WKT reading and writing and `toString` are not modelled. An unsupported
  geometry carries its text form as a string, for the error message.
- `GeometryFactory`, the SRID and `PrecisionModel`, and the exception that
  `createLinearRing` throws for an open or too-short ring are not modelled.
  The lemmas `PoleVertices.WithPoleVerticesKeepsValidRing` and
  `Projection.ProjectionsKeepRings` show that a valid input ring stays valid,
  so this exception cannot arise from a valid input.
- `postSplitTranslateLineString`, `postSplitTranslateLinearRing`,
  `addPolarCoordinateLineString` and `addPolarCoordinateLinearRing` (lines
  113-119 and 175-181) are folded into the coordinate-array methods they
  call. `LineString` and `LinearRing` differ only in their tag.
- The MultiLineString loops written inline in both walkers are separate
  methods here (`AddPolarCoordinateLineStrings`, `PostSplitTranslateLineStrings`).
  A MultiPoint, which the source sends through the GeometryCollection loop,
  gets a loop of its own (`AddPolarCoordinatePoints`, `PostSplitTranslatePoints`);
  the result is the same, since a MultiPoint's members are Points. The
  GeometryCollection loop stays inline in the walker methods.
- The `Set<Coordinate>` of crossings (a `HashSet`, whose `Coordinate.equals`
  compares x and y) is a mathematical set of coordinates with the same
  equality.
- A polygon's envelope is its exterior ring's. An empty exterior ring has
  JTS's null envelope (minimum 0, maximum -1), so it is treated as antarctic.
- Classifier.NotPolarOnPole: the kernel is taken to give cos 90° = 0 exactly.
  Java's `Math.cos(Math.toRadians(90))` is about 6.1e-17, but 30 · 6.1e-17 + 180
  rounds to 180.0 in double arithmetic, so the projected ring, and the
  outcome, are the same as with the exact value. The other rings of that test
  (lines 120-125) and the literal coordinates the other tests print are not
  reproduced, since they depend on floating-point trigonometry.

## Findings

| source | as written | input that shows it | evidently intended | confidence | as-written member | corrected member |
|---|---|---|---|---|---|---|
| src/main/java/edu/colorado/cires/cmg/polarprocessor/PolarProcessor.java:338-346 | The crossings are a set of distinct points. At a vertex on the seam ray, both adjacent segments report the same point, so the set keeps it once. A ring that only touches the ray from one side counts one crossing, which is odd, and is split. | POLYGON ((0 80, 10 70, 20 80, 0 80)), arctic. It projects to about (180, 10), (176.53, 19.70), (176.58, 9.40), (180, 10). Shifted, that is (0, 10), (-3.47, 19.70), (-3.42, 9.40), (0, 10). This ring lies in x <= 0, does not enclose the pole, and has one crossing, (0, 10). | Split only a ring that winds round the pole. A ring on one side of the seam's line, tangent to it or not, is never split. A half-open rule, under which a vertex on the axis counts as left, gives that result. | medium; not executed (the coordinates are approximate) | Classifier.TangentTouchSplits | Classifier.CorrectedHalfPlaneNeverSplits, used by PolarProcessor.CorrectedSplitPolarResult and PolarProcessor.CorrectedSplitPolarHalfPlane; Classifier.CorrectedAgreesOffAxis and Classifier.DiamondSplitsEitherWay show the correction keeps the code's decision away from the tangent case |
