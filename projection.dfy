/**
 * The forward (pre-split) and inverse (post-split) polar projections, point by
 * point, ring by ring and polygon by polygon.
 *
 * Forward: a geographic coordinate becomes a planar one in which the chosen
 * pole sits at (180, 0), distance from the pole is the planar radius and the
 * longitude, turned by 90 degrees, is the planar angle. Inverse: the planar
 * radius and angle become latitude and longitude again, with fixed answers for
 * the pole itself and for points on the +-180 seam.
 */
module Projection {
  import opened Numerics
  import opened Geometries

  // ---------------------------------------------------------------------
  // Forward projection (preSplitTranslateCoordinate)

  /** Angular distance from the chosen pole: 90 - lat from the north, 90 + lat from the south. */
  function PolarDistance(lat: real, arctic: bool): (d: real)
    ensures -90.0 <= lat <= 90.0 ==> 0.0 <= d <= 180.0
    ensures d == 0.0 <==> lat == (if arctic then 90.0 else -90.0)
  {
    if arctic then 90.0 - lat else 90.0 + lat
  }

  /** The planar angle: longitude turned by 90 degrees, wrapped into (-180, 180]. */
  function PolarAngle(lon: real): (a: real)
    ensures a == lon + 90.0 || a == lon - 270.0
    ensures -180.0 <= lon <= 180.0 ==> -180.0 < a <= 180.0
  {
    Fold180(lon + 90.0)
  }

  /** Planar x before rounding: `distance * cos(angle) + 180`, wrapped. */
  function PlanarX(c: Coord, arctic: bool, k: Kernel): (x: real)
    ensures Valid(k) && -90.0 <= c.y <= 90.0 ==> -180.0 < x <= 180.0
  {
    var d := PolarDistance(c.y, arctic);
    var cos := k.cosDeg(PolarAngle(c.x));
    assert Valid(k) && 0.0 <= d <= 180.0 ==> -d <= d * cos <= d by {
      if Valid(k) && 0.0 <= d {
        assert d * cos <= d * 1.0;
        assert d * -1.0 <= d * cos;
      }
    }
    Fold180(d * cos + 180.0)
  }

  /** Planar y before rounding: `distance * sin(angle)`. */
  function PlanarY(c: Coord, arctic: bool, k: Kernel): (y: real)
    ensures Valid(k) && -90.0 <= c.y <= 90.0 ==> -180.0 <= y <= 180.0
  {
    var d := PolarDistance(c.y, arctic);
    var sin := k.sinDeg(PolarAngle(c.x));
    assert Valid(k) && 0.0 <= d <= 180.0 ==> -d <= d * sin <= d by {
      if Valid(k) && 0.0 <= d {
        assert d * sin <= d * 1.0;
        assert d * -1.0 <= d * sin;
      }
    }
    d * sin
  }

  /**
   * preSplitTranslateCoordinate: both planar coordinates, rounded to 11
   * decimals. Every latitude lands in the planar square [-180, 180]^2, and the
   * chosen pole lands on (180, 0) whatever its longitude.
   */
  function PreSplitTranslateCoordinate(c: Coord, arctic: bool, k: Kernel): (r: Coord)
    ensures Valid(k) && -90.0 <= c.y <= 90.0 ==> -180.0 <= r.x <= 180.0 && -180.0 <= r.y <= 180.0
    ensures Valid(k) && c.y == (if arctic then 90.0 else -90.0) ==> r == Coord(180.0, 0.0)
  {
    var x := PlanarX(c, arctic, k);
    var y := PlanarY(c, arctic, k);
    assert Valid(k) && -90.0 <= c.y <= 90.0 ==>
      k.round11(-180.0) <= k.round11(x) <= k.round11(180.0) && k.round11(-180.0) <= k.round11(y) <= k.round11(180.0);
    Coord(k.round11(x), k.round11(y))
  }

  // ---------------------------------------------------------------------
  // Inverse projection (postSplitTranslateCoordinate)

  /** The planar x shifted by +180 and wrapped, as the inverse projection first computes it. */
  function ShiftedX(c: Coord): real {
    Fold180(c.x + 180.0)
  }

  /** Planar distance from the pole: `sqrt(x^2 + y^2)` of the shifted point. */
  function PlanarRadius(c: Coord, k: Kernel): (d: real)
    ensures Valid(k) ==> 0.0 <= d
  {
    var x := ShiftedX(c);
    k.sqrt(x * x + c.y * c.y)
  }

  /** `atan2(y, x) - 90` in degrees, wrapped into [-180, 180]. */
  function FoldedAngle(c: Coord, k: Kernel): (a: real)
    ensures Valid(k) ==> -180.0 <= a <= 180.0
  {
    FoldAngle(k.atan2Deg(c.y, ShiftedX(c)) - 90.0)
  }

  /** The two ties of the inverse projection: the pole itself, or an angle exactly on the seam. */
  predicate OnSeam(c: Coord, k: Kernel) {
    PlanarRadius(c, k) == 0.0 || Abs(FoldedAngle(c, k)) == 180.0
  }

  /**
   * The longitude before rounding. On a tie it is exactly -180 when the
   * planar x it came from is negative and +180 otherwise; elsewhere it is the
   * folded angle. Whenever it lies on the seam its sign is that of the input x.
   */
  function InverseLongitude(c: Coord, k: Kernel): (lon: real)
    ensures OnSeam(c, k) ==> lon == (if c.x < 0.0 then -180.0 else 180.0)
    ensures !OnSeam(c, k) ==> lon == FoldedAngle(c, k)
    ensures Abs(lon) == 180.0 ==> (lon < 0.0 <==> c.x < 0.0)
    ensures Valid(k) ==> -180.0 <= lon <= 180.0
  {
    var angle := if PlanarRadius(c, k) == 0.0 then 180.0 else FoldedAngle(c, k);
    if Abs(angle) == 180.0 then (if c.x < 0.0 then -180.0 else 180.0) else angle
  }

  /**
   * The latitude before rounding: the planar radius measured from the chosen
   * pole. Radius 0 is the pole itself.
   */
  function InverseLatitude(c: Coord, arctic: bool, k: Kernel): (lat: real)
    ensures Valid(k) ==> if arctic then lat <= 90.0 else -90.0 <= lat
    ensures PlanarRadius(c, k) == 0.0 ==> lat == (if arctic then 90.0 else -90.0)
  {
    var d := PlanarRadius(c, k);
    if arctic then 90.0 - d else d - 90.0
  }

  /**
   * postSplitTranslateCoordinate: longitude and latitude, rounded to 11
   * decimals. The longitude stays in [-180, 180] and the latitude does not
   * pass the chosen pole.
   */
  function PostSplitTranslateCoordinate(c: Coord, arctic: bool, k: Kernel): (r: Coord)
    ensures Valid(k) ==> -180.0 <= r.x <= 180.0
    ensures Valid(k) ==> if arctic then r.y <= 90.0 else -90.0 <= r.y
  {
    var lon := InverseLongitude(c, k);
    var lat := InverseLatitude(c, arctic, k);
    assert Valid(k) ==> k.round11(-180.0) <= k.round11(lon) <= k.round11(180.0);
    assert Valid(k) && arctic ==> k.round11(lat) <= k.round11(90.0);
    assert Valid(k) && !arctic ==> k.round11(-90.0) <= k.round11(lat);
    Coord(k.round11(lon), k.round11(lat))
  }

  /**
   * On a tie (the pole itself, or an angle exactly on the seam) the longitude
   * is exactly -180 when the planar x is negative and +180 otherwise, so the
   * two sides of the cut come back on the two sides of the antimeridian.
   */
  lemma PostSplitSeam(c: Coord, arctic: bool, k: Kernel)
    requires Valid(k) && OnSeam(c, k)
    ensures PostSplitTranslateCoordinate(c, arctic, k).x == (if c.x < 0.0 then -180.0 else 180.0)
  {
  }

  /**
   * The two pole vertices (-180, 0) and (180, 0) become the geographic pole,
   * at longitude -180 and +180 respectively.
   */
  lemma PoleVerticesUnproject(arctic: bool, k: Kernel)
    requires Valid(k)
    ensures PostSplitTranslateCoordinate(Coord(-180.0, 0.0), arctic, k) == Coord(-180.0, if arctic then 90.0 else -90.0)
    ensures PostSplitTranslateCoordinate(Coord(180.0, 0.0), arctic, k) == Coord(180.0, if arctic then 90.0 else -90.0)
  {
    assert PlanarRadius(Coord(-180.0, 0.0), k) == 0.0;
    assert PlanarRadius(Coord(180.0, 0.0), k) == 0.0;
    PostSplitSeam(Coord(-180.0, 0.0), arctic, k);
    PostSplitSeam(Coord(180.0, 0.0), arctic, k);
  }

  // ---------------------------------------------------------------------
  // Rings and polygons

  function ProjectedRing(ring: seq<Coord>, arctic: bool, k: Kernel): seq<Coord> {
    seq(|ring|, n requires 0 <= n < |ring| => PreSplitTranslateCoordinate(ring[n], arctic, k))
  }

  function ProjectedPolygon(p: Polygon, arctic: bool, k: Kernel): Polygon {
    Rings(ProjectedRing(p.shell, arctic, k),
          seq(|p.holes|, n requires 0 <= n < |p.holes| => ProjectedRing(p.holes[n], arctic, k)))
  }

  function UnprojectedRing(ring: seq<Coord>, arctic: bool, k: Kernel): seq<Coord> {
    seq(|ring|, n requires 0 <= n < |ring| => PostSplitTranslateCoordinate(ring[n], arctic, k))
  }

  function UnprojectedPolygon(p: Polygon, arctic: bool, k: Kernel): Polygon {
    Rings(UnprojectedRing(p.shell, arctic, k),
          seq(|p.holes|, n requires 0 <= n < |p.holes| => UnprojectedRing(p.holes[n], arctic, k)))
  }

  /**
   * preSplitTranslateLineString: an index loop filling a coordinate array. The
   * ring keeps its length, each coordinate is projected in place, and a ring
   * JTS accepts stays one it accepts.
   */
  method PreSplitTranslateLineString(ring: seq<Coord>, arctic: bool, k: Kernel) returns (r: seq<Coord>)
    ensures |r| == |ring|
    ensures forall n :: 0 <= n < |ring| ==> r[n] == PreSplitTranslateCoordinate(ring[n], arctic, k)
    ensures ValidRing(ring) ==> ValidRing(r)
  {
    var coordinates := new Coord[|ring|];
    for n := 0 to |ring|
      invariant forall j :: 0 <= j < n ==> coordinates[j] == PreSplitTranslateCoordinate(ring[j], arctic, k)
    {
      coordinates[n] := PreSplitTranslateCoordinate(ring[n], arctic, k);
    }
    r := coordinates[..];
  }

  /** preSplitTranslatePolygon: the holes, then the exterior, each projected as a ring. */
  method PreSplitTranslatePolygon(p: Polygon, arctic: bool, k: Kernel) returns (r: Polygon)
    ensures r == ProjectedPolygon(p, arctic, k)
  {
    var holes := new seq<Coord>[|p.holes|];
    for n := 0 to |p.holes|
      invariant forall j :: 0 <= j < n ==> holes[j] == ProjectedRing(p.holes[j], arctic, k)
    {
      holes[n] := PreSplitTranslateLineString(p.holes[n], arctic, k);
    }
    var shell := PreSplitTranslateLineString(p.shell, arctic, k);
    r := Rings(shell, holes[..]);
  }

  /**
   * postSplitTranslateCoordinateArray: an index loop filling a coordinate
   * array. The sequence keeps its length, each coordinate is unprojected in
   * place, and a ring JTS accepts stays one it accepts.
   */
  method PostSplitTranslateCoordinateArray(ring: seq<Coord>, arctic: bool, k: Kernel) returns (r: seq<Coord>)
    ensures |r| == |ring|
    ensures forall n :: 0 <= n < |ring| ==> r[n] == PostSplitTranslateCoordinate(ring[n], arctic, k)
    ensures ValidRing(ring) ==> ValidRing(r)
  {
    var coordinates := new Coord[|ring|];
    for n := 0 to |ring|
      invariant forall j :: 0 <= j < n ==> coordinates[j] == PostSplitTranslateCoordinate(ring[j], arctic, k)
    {
      coordinates[n] := PostSplitTranslateCoordinate(ring[n], arctic, k);
    }
    r := coordinates[..];
  }

  /** postSplitTranslatePolygon: the holes, then the exterior, each unprojected as a ring. */
  method PostSplitTranslatePolygon(p: Polygon, arctic: bool, k: Kernel) returns (r: Polygon)
    ensures r == UnprojectedPolygon(p, arctic, k)
  {
    var holes := new seq<Coord>[|p.holes|];
    for n := 0 to |p.holes|
      invariant forall j :: 0 <= j < n ==> holes[j] == UnprojectedRing(p.holes[j], arctic, k)
    {
      holes[n] := PostSplitTranslateCoordinateArray(p.holes[n], arctic, k);
    }
    var shell := PostSplitTranslateCoordinateArray(p.shell, arctic, k);
    r := Rings(shell, holes[..]);
  }

  /** Both projections keep a ring's length, and a ring JTS accepts stays one it accepts. */
  lemma ProjectionsKeepRings(ring: seq<Coord>, arctic: bool, k: Kernel)
    ensures |ProjectedRing(ring, arctic, k)| == |ring| && |UnprojectedRing(ring, arctic, k)| == |ring|
    ensures ValidRing(ring) ==> ValidRing(ProjectedRing(ring, arctic, k)) && ValidRing(UnprojectedRing(ring, arctic, k))
  {
  }
}
