/**
 * The two geometry walkers: addPolarCoordinate (pole-vertex insertion) and
 * postSplitTranslateGeometry (inverse projection). Each dispatches on the
 * geometry kind in the source's `instanceof` order and rebuilds the geometry
 * member by member; any kind outside the branches is an error.
 */
module Walkers {
  import opened Wrappers
  import opened Numerics
  import opened Geometries
  import opened Projection
  import opened PoleVertices

  /** The message of the `IllegalStateException` both walkers throw. */
  function UnsupportedError(wkt: string): string {
    "Unsupported geometry: " + wkt
  }

  // ---------------------------------------------------------------------
  // addPolarCoordinate

  /** What addPolarCoordinate returns for g. */
  function WithPolarCoordinates(g: Geometry): Result<Geometry>
    decreases g
  {
    match g
    case Polygon(p) => Success(Polygon(PolygonWithPoleVertices(p)))
    case MultiPolygon(ps) =>
      Success(MultiPolygon(seq(|ps|, n requires 0 <= n < |ps| => PolygonWithPoleVertices(ps[n]))))
    case LineString(cs) => Success(LineString(WithPoleVertices(cs)))
    case LinearRing(cs) => Success(LineString(WithPoleVertices(cs)))
    case MultiLineString(ls) =>
      Success(MultiLineString(seq(|ls|, n requires 0 <= n < |ls| => WithPoleVertices(ls[n]))))
    case Point(_) => Success(g)
    case MultiPoint(cs) => Success(GeometryCollection(seq(|cs|, n requires 0 <= n < |cs| => Point(cs[n]))))
    case GeometryCollection(gs) =>
      (match Collect(MembersWithPolarCoordinates(gs))
       case Success(ms) => Success(GeometryCollection(ms))
       case Failure(e) => Failure(e))
    case Unsupported(wkt) => Failure(UnsupportedError(wkt))
  }

  /** addPolarCoordinate applied to each member of a collection, failures included. */
  function MembersWithPolarCoordinates(gs: seq<Geometry>): (rs: seq<Result<Geometry>>)
    ensures |rs| == |gs| && forall n :: 0 <= n < |gs| ==> rs[n] == WithPolarCoordinates(gs[n])
    decreases gs
  {
    seq(|gs|, n requires 0 <= n < |gs| => WithPolarCoordinates(gs[n]))
  }

  /** How addPolarCoordinate changes one coordinate sequence: pole vertices on exteriors and lines only. */
  function PartWithPoleVertices(part: Part): Part {
    if part.role == Exterior || part.role == Line then Part(part.role, WithPoleVertices(part.coords)) else part
  }

  /** addPolarCoordinate fails exactly when g holds a kind none of its branches accepts. */
  lemma {:induction false} WithPolarCoordinatesFails(g: Geometry)
    ensures WithPolarCoordinates(g).Failure? <==> HasUnsupported(g)
  {
    if g.GeometryCollection? {
      var gs := g.members;
      forall n | 0 <= n < |gs|
        ensures WithPolarCoordinates(gs[n]).Failure? <==> HasUnsupported(gs[n])
      {
        WithPolarCoordinatesFails(gs[n]);
      }
    }
  }

  /**
   * addPolarCoordinate keeps the kind of every node (a LinearRing comes back
   * as a LineString, a MultiPoint as a collection of points) and the member
   * count at every level.
   */
  lemma {:induction false} WithPolarCoordinatesShape(g: Geometry)
    requires WithPolarCoordinates(g).Success?
    ensures ShapeOf(WithPolarCoordinates(g).value) == Walked(ShapeOf(g))
  {
    match g
    case GeometryCollection(gs) =>
      var ms := WithPolarCoordinates(g).value.members;
      forall n | 0 <= n < |gs| ensures ShapeOf(ms[n]) == Walked(ShapeOf(gs[n])) {
        WithPolarCoordinatesShape(gs[n]);
      }
    case _ =>
  }

  /** What addPolarCoordinate returns is built from the six kinds alone, which postSplitTranslateGeometry accepts. */
  lemma {:induction false} WithPolarCoordinatesSixKinds(g: Geometry)
    requires WithPolarCoordinates(g).Success?
    ensures SixKinds(WithPolarCoordinates(g).value)
  {
    var out := WithPolarCoordinates(g).value;
    if g.GeometryCollection? {
      forall n | 0 <= n < |g.members| ensures SixKinds(out.members[n]) {
        WithPolarCoordinatesSixKinds(g.members[n]);
      }
    }
  }

  /**
   * addPolarCoordinate keeps every coordinate sequence in place: exterior
   * rings and lines get their pole vertices, holes and points are returned
   * as they are.
   */
  lemma {:induction false} WithPolarCoordinatesParts(g: Geometry)
    requires WithPolarCoordinates(g).Success?
    ensures Pointwise(Parts(g), Parts(WithPolarCoordinates(g).value), PartWithPoleVertices)
  {
    match g
    case Polygon(p) =>
      assert Pointwise(PolygonParts(p), PolygonParts(PolygonWithPoleVertices(p)), PartWithPoleVertices);
    case MultiPolygon(_) =>
      PolarPartsMultiPolygon(g);
    case MultiPoint(_) =>
      PolarPartsMultiPoint(g);
    case GeometryCollection(gs) =>
      var ms := WithPolarCoordinates(g).value.members;
      forall n | 0 <= n < |gs| ensures Pointwise(Parts(gs[n]), Parts(ms[n]), PartWithPoleVertices) {
        WithPolarCoordinatesParts(gs[n]);
      }
      FlattenPointwise(seq(|gs|, n requires 0 <= n < |gs| => Parts(gs[n])),
                       seq(|ms|, n requires 0 <= n < |ms| => Parts(ms[n])), PartWithPoleVertices);
    case _ =>
  }

  lemma PolarPartsMultiPolygon(g: Geometry)
    requires g.MultiPolygon?
    ensures Pointwise(Parts(g), Parts(WithPolarCoordinates(g).value), PartWithPoleVertices)
  {
    var ps, qs := g.polygons, WithPolarCoordinates(g).value.polygons;
    forall n | 0 <= n < |ps| ensures Pointwise(PolygonParts(ps[n]), PolygonParts(qs[n]), PartWithPoleVertices) {
    }
    FlattenPointwise(seq(|ps|, n requires 0 <= n < |ps| => PolygonParts(ps[n])),
                     seq(|qs|, n requires 0 <= n < |qs| => PolygonParts(qs[n])), PartWithPoleVertices);
  }

  lemma PolarPartsMultiPoint(g: Geometry)
    requires g.MultiPoint?
    ensures Pointwise(Parts(g), Parts(WithPolarCoordinates(g).value), PartWithPoleVertices)
  {
    var cs, ms := g.points, WithPolarCoordinates(g).value.members;
    FlattenSingletons(seq(|ms|, n requires 0 <= n < |ms| => Parts(ms[n])),
                      seq(|cs|, n requires 0 <= n < |cs| => Part(Vertex, [cs[n]])));
  }

  /** addPolarCoordinateMultiPolygon: an index loop filling a polygon array. */
  method AddPolarCoordinateMultiPolygon(ps: seq<Polygon>) returns (r: seq<Polygon>)
    ensures |r| == |ps| && forall n :: 0 <= n < |ps| ==> r[n] == PolygonWithPoleVertices(ps[n])
  {
    var polygons := new Polygon[|ps|];
    for n := 0 to |ps|
      invariant forall j :: 0 <= j < n ==> polygons[j] == PolygonWithPoleVertices(ps[j])
    {
      polygons[n] := AddPolarCoordinatePolygon(ps[n]);
    }
    r := polygons[..];
  }

  /** The loop of addPolarCoordinate's MultiLineString branch: each line gets its pole vertices. */
  method AddPolarCoordinateLineStrings(ls: seq<seq<Coord>>) returns (r: seq<seq<Coord>>)
    ensures |r| == |ls| && forall n :: 0 <= n < |ls| ==> r[n] == WithPoleVertices(ls[n])
  {
    var geometries := new seq<Coord>[|ls|];
    for n := 0 to |ls|
      invariant forall j :: 0 <= j < n ==> geometries[j] == WithPoleVertices(ls[j])
    {
      geometries[n] := AddPolarCoordinateCoordinateArray(ls[n]);
    }
    r := geometries[..];
  }

  /**
   * The loop of addPolarCoordinate's GeometryCollection branch on a
   * MultiPoint: each member is a Point, which the Point branch returns as it is.
   */
  method AddPolarCoordinatePoints(cs: seq<Coord>) returns (r: seq<Geometry>)
    ensures |r| == |cs| && forall n :: 0 <= n < |cs| ==> r[n] == Point(cs[n])
  {
    var geometries := new Geometry[|cs|];
    for n := 0 to |cs|
      invariant forall j :: 0 <= j < n ==> geometries[j] == Point(cs[j])
    {
      geometries[n] := Point(cs[n]);
    }
    r := geometries[..];
  }

  /** addPolarCoordinate: the recursive dispatch. */
  method AddPolarCoordinate(g: Geometry) returns (r: Result<Geometry>)
    ensures r == WithPolarCoordinates(g)
    decreases g
  {
    match g {
      case Polygon(p) =>
        var q := AddPolarCoordinatePolygon(p);
        r := Success(Polygon(q));
      case MultiPolygon(ps) =>
        var qs := AddPolarCoordinateMultiPolygon(ps);
        assert qs == seq(|ps|, n requires 0 <= n < |ps| => PolygonWithPoleVertices(ps[n]));
        r := Success(MultiPolygon(qs));
      case LineString(cs) =>
        var line := AddPolarCoordinateCoordinateArray(cs);
        r := Success(LineString(line));
      case LinearRing(cs) =>
        var line := AddPolarCoordinateCoordinateArray(cs);
        r := Success(LineString(line));
      case MultiLineString(ls) =>
        var lines := AddPolarCoordinateLineStrings(ls);
        assert lines == seq(|ls|, n requires 0 <= n < |ls| => WithPoleVertices(ls[n]));
        r := Success(MultiLineString(lines));
      case Point(_) =>
        r := Success(g);
      case MultiPoint(cs) =>
        var points := AddPolarCoordinatePoints(cs);
        assert points == seq(|cs|, n requires 0 <= n < |cs| => Point(cs[n]));
        r := Success(GeometryCollection(points));
      case GeometryCollection(gs) =>
        ghost var rs := MembersWithPolarCoordinates(gs);
        var geometries := new Geometry[|gs|];
        for n := 0 to |gs|
          invariant forall j :: 0 <= j < n ==> rs[j] == Success(geometries[j])
        {
          var m := AddPolarCoordinate(gs[n]);
          if m.Failure? {
            CollectFirstFailure(rs, n);
            return Failure(m.error);
          }
          geometries[n] := m.value;
        }
        assert forall j :: 0 <= j < |rs| ==> rs[j].Success?;
        assert Collect(rs).value == geometries[..];
        r := Success(GeometryCollection(geometries[..]));
      case Unsupported(wkt) =>
        r := Failure(UnsupportedError(wkt));
    }
  }

  /**
   * The split of the ring (180 70, 90 70, 0 70, -90 70, 180 70), once pole
   * vertices are added: each part gets the pole vertex where its seam edge
   * crosses y = 0.
   */
  lemma AddPolarCoordinateSplitRing()
    ensures WithPolarCoordinates(MultiPolygon([
        Rings([Coord(-180.0, -20.0), Coord(-180.0, 20.0), Coord(-160.0, 0.0), Coord(-180.0, -20.0)], []),
        Rings([Coord(180.0, 20.0), Coord(180.0, -20.0), Coord(160.0, 0.0), Coord(180.0, 20.0)], [])]))
      == Success(MultiPolygon([
        Rings([Coord(-180.0, -20.0), Coord(-180.0, 0.0), Coord(-180.0, 20.0), Coord(-160.0, 0.0), Coord(-180.0, -20.0)], []),
        Rings([Coord(180.0, 20.0), Coord(180.0, 0.0), Coord(180.0, -20.0), Coord(160.0, 0.0), Coord(180.0, 20.0)], [])]))
  {
    var a := [Coord(-180.0, -20.0), Coord(-180.0, 20.0), Coord(-160.0, 0.0), Coord(-180.0, -20.0)];
    var b := [Coord(180.0, 20.0), Coord(180.0, -20.0), Coord(160.0, 0.0), Coord(180.0, 20.0)];
    assert a[..3][..2] == a[..2] && a[..2][..1] == a[..1] && a[..3] == a[..|a| - 1] && a[..2] == a[..3][..2];
    assert WithPoleVertices(a[..2]) == [Coord(-180.0, -20.0), WestPole, Coord(-180.0, 20.0)];
    assert WithPoleVertices(a[..3]) == [Coord(-180.0, -20.0), WestPole, Coord(-180.0, 20.0), Coord(-160.0, 0.0)];
    assert b[..3][..2] == b[..2] && b[..2][..1] == b[..1] && b[..3] == b[..|b| - 1];
    assert WithPoleVertices(b[..2]) == [Coord(180.0, 20.0), EastPole, Coord(180.0, -20.0)];
    assert WithPoleVertices(b[..3]) == [Coord(180.0, 20.0), EastPole, Coord(180.0, -20.0), Coord(160.0, 0.0)];
    assert PoleBetween(a[2], a[3]) == [] && PoleBetween(b[2], b[3]) == [];
    assert WithPoleVertices(a) == [Coord(-180.0, -20.0), WestPole, Coord(-180.0, 20.0), Coord(-160.0, 0.0), Coord(-180.0, -20.0)];
    assert WithPoleVertices(b) == [Coord(180.0, 20.0), EastPole, Coord(180.0, -20.0), Coord(160.0, 0.0), Coord(180.0, 20.0)];
    var ps := [Rings(a, []), Rings(b, [])];
    assert seq(|ps|, n requires 0 <= n < |ps| => PolygonWithPoleVertices(ps[n]))
      == [PolygonWithPoleVertices(ps[0]), PolygonWithPoleVertices(ps[1])];
  }

  // ---------------------------------------------------------------------
  // postSplitTranslateGeometry

  /** What postSplitTranslateGeometry returns for g. */
  function Unprojected(g: Geometry, arctic: bool, k: Kernel): Result<Geometry>
    decreases g
  {
    match g
    case Polygon(p) => Success(Polygon(UnprojectedPolygon(p, arctic, k)))
    case MultiPolygon(ps) =>
      Success(MultiPolygon(seq(|ps|, n requires 0 <= n < |ps| => UnprojectedPolygon(ps[n], arctic, k))))
    case LineString(cs) => Success(LineString(UnprojectedRing(cs, arctic, k)))
    case LinearRing(cs) => Success(LineString(UnprojectedRing(cs, arctic, k)))
    case MultiLineString(ls) =>
      Success(MultiLineString(seq(|ls|, n requires 0 <= n < |ls| => UnprojectedRing(ls[n], arctic, k))))
    case Point(c) => Success(Point(PostSplitTranslateCoordinate(c, arctic, k)))
    case MultiPoint(cs) =>
      Success(GeometryCollection(seq(|cs|, n requires 0 <= n < |cs| => Point(PostSplitTranslateCoordinate(cs[n], arctic, k)))))
    case GeometryCollection(gs) =>
      (match Collect(MembersUnprojected(gs, arctic, k))
       case Success(ms) => Success(GeometryCollection(ms))
       case Failure(e) => Failure(e))
    case Unsupported(wkt) => Failure(UnsupportedError(wkt))
  }

  /** postSplitTranslateGeometry applied to each member of a collection, failures included. */
  function MembersUnprojected(gs: seq<Geometry>, arctic: bool, k: Kernel): (rs: seq<Result<Geometry>>)
    ensures |rs| == |gs| && forall n :: 0 <= n < |gs| ==> rs[n] == Unprojected(gs[n], arctic, k)
    decreases gs
  {
    seq(|gs|, n requires 0 <= n < |gs| => Unprojected(gs[n], arctic, k))
  }

  /** How postSplitTranslateGeometry changes one coordinate sequence: every coordinate is unprojected. */
  function UnprojectedPart(part: Part, arctic: bool, k: Kernel): Part {
    Part(part.role, UnprojectedRing(part.coords, arctic, k))
  }

  /** postSplitTranslateGeometry fails exactly when g holds a kind none of its branches accepts. */
  lemma {:induction false} UnprojectedFails(g: Geometry, arctic: bool, k: Kernel)
    ensures Unprojected(g, arctic, k).Failure? <==> HasUnsupported(g)
  {
    if g.GeometryCollection? {
      var gs := g.members;
      forall n | 0 <= n < |gs|
        ensures Unprojected(gs[n], arctic, k).Failure? <==> HasUnsupported(gs[n])
      {
        UnprojectedFails(gs[n], arctic, k);
      }
    }
  }

  /**
   * postSplitTranslateGeometry keeps the kind of every node (a LinearRing
   * comes back as a LineString, a MultiPoint as a collection of points) and
   * the member count at every level.
   */
  lemma {:induction false} UnprojectedShape(g: Geometry, arctic: bool, k: Kernel)
    requires Unprojected(g, arctic, k).Success?
    ensures ShapeOf(Unprojected(g, arctic, k).value) == Walked(ShapeOf(g))
  {
    match g
    case GeometryCollection(gs) =>
      var ms := Unprojected(g, arctic, k).value.members;
      forall n | 0 <= n < |gs| ensures ShapeOf(ms[n]) == Walked(ShapeOf(gs[n])) {
        UnprojectedShape(gs[n], arctic, k);
      }
    case _ =>
  }

  /**
   * postSplitTranslateGeometry maps every coordinate sequence in place, point
   * by point, so each keeps its role and its length; a point is translated
   * like any other coordinate.
   */
  lemma {:induction false} UnprojectedParts(g: Geometry, arctic: bool, k: Kernel)
    requires Unprojected(g, arctic, k).Success?
    ensures Pointwise(Parts(g), Parts(Unprojected(g, arctic, k).value), part => UnprojectedPart(part, arctic, k))
  {
    var f := part => UnprojectedPart(part, arctic, k);
    match g
    case Point(_) =>
      UnprojectedPartsPoint(g, arctic, k);
    case Polygon(p) =>
      assert Pointwise(PolygonParts(p), PolygonParts(UnprojectedPolygon(p, arctic, k)), f);
    case MultiPolygon(_) =>
      UnprojectedPartsMultiPolygon(g, arctic, k);
    case MultiPoint(_) =>
      UnprojectedPartsMultiPoint(g, arctic, k);
    case GeometryCollection(gs) =>
      var ms := Unprojected(g, arctic, k).value.members;
      forall n | 0 <= n < |gs| ensures Pointwise(Parts(gs[n]), Parts(ms[n]), f) {
        UnprojectedParts(gs[n], arctic, k);
      }
      FlattenPointwise(seq(|gs|, n requires 0 <= n < |gs| => Parts(gs[n])),
                       seq(|ms|, n requires 0 <= n < |ms| => Parts(ms[n])), f);
    case _ =>
  }

  lemma UnprojectedPartsPoint(g: Geometry, arctic: bool, k: Kernel)
    requires g.Point?
    ensures Pointwise(Parts(g), Parts(Unprojected(g, arctic, k).value), part => UnprojectedPart(part, arctic, k))
  {
    assert UnprojectedRing([g.coord], arctic, k) == [PostSplitTranslateCoordinate(g.coord, arctic, k)];
  }

  lemma UnprojectedPartsMultiPolygon(g: Geometry, arctic: bool, k: Kernel)
    requires g.MultiPolygon?
    ensures Pointwise(Parts(g), Parts(Unprojected(g, arctic, k).value), part => UnprojectedPart(part, arctic, k))
  {
    var f := part => UnprojectedPart(part, arctic, k);
    var ps, qs := g.polygons, Unprojected(g, arctic, k).value.polygons;
    forall n | 0 <= n < |ps| ensures Pointwise(PolygonParts(ps[n]), PolygonParts(qs[n]), f) {
    }
    FlattenPointwise(seq(|ps|, n requires 0 <= n < |ps| => PolygonParts(ps[n])),
                     seq(|qs|, n requires 0 <= n < |qs| => PolygonParts(qs[n])), f);
  }

  lemma UnprojectedPartsMultiPoint(g: Geometry, arctic: bool, k: Kernel)
    requires g.MultiPoint?
    ensures Pointwise(Parts(g), Parts(Unprojected(g, arctic, k).value), part => UnprojectedPart(part, arctic, k))
  {
    var cs, ms := g.points, Unprojected(g, arctic, k).value.members;
    var ps := seq(|cs|, n requires 0 <= n < |cs| => Part(Vertex, [PostSplitTranslateCoordinate(cs[n], arctic, k)]));
    FlattenSingletons(seq(|ms|, n requires 0 <= n < |ms| => Parts(ms[n])), ps);
    forall n | 0 <= n < |cs| ensures ps[n] == UnprojectedPart(Parts(g)[n], arctic, k) {
      assert UnprojectedRing([cs[n]], arctic, k) == [PostSplitTranslateCoordinate(cs[n], arctic, k)];
    }
  }

  /** postSplitTranslateMultiPolygon: an index loop filling a polygon array. */
  method PostSplitTranslateMultiPolygon(ps: seq<Polygon>, arctic: bool, k: Kernel) returns (r: seq<Polygon>)
    ensures |r| == |ps| && forall n :: 0 <= n < |ps| ==> r[n] == UnprojectedPolygon(ps[n], arctic, k)
  {
    var polygons := new Polygon[|ps|];
    for n := 0 to |ps|
      invariant forall j :: 0 <= j < n ==> polygons[j] == UnprojectedPolygon(ps[j], arctic, k)
    {
      polygons[n] := PostSplitTranslatePolygon(ps[n], arctic, k);
    }
    r := polygons[..];
  }

  /** The loop of postSplitTranslateGeometry's MultiLineString branch: each line is unprojected. */
  method PostSplitTranslateLineStrings(ls: seq<seq<Coord>>, arctic: bool, k: Kernel) returns (r: seq<seq<Coord>>)
    ensures |r| == |ls| && forall n :: 0 <= n < |ls| ==> r[n] == UnprojectedRing(ls[n], arctic, k)
  {
    var geometries := new seq<Coord>[|ls|];
    for n := 0 to |ls|
      invariant forall j :: 0 <= j < n ==> geometries[j] == UnprojectedRing(ls[j], arctic, k)
    {
      geometries[n] := PostSplitTranslateCoordinateArray(ls[n], arctic, k);
      assert geometries[n] == UnprojectedRing(ls[n], arctic, k);
    }
    r := geometries[..];
  }

  /**
   * The loop of postSplitTranslateGeometry's GeometryCollection branch on a
   * MultiPoint: each member is a Point, which the Point branch translates.
   */
  method PostSplitTranslatePoints(cs: seq<Coord>, arctic: bool, k: Kernel) returns (r: seq<Geometry>)
    ensures |r| == |cs| && forall n :: 0 <= n < |cs| ==> r[n] == Point(PostSplitTranslateCoordinate(cs[n], arctic, k))
  {
    var geometries := new Geometry[|cs|];
    for n := 0 to |cs|
      invariant forall j :: 0 <= j < n ==> geometries[j] == Point(PostSplitTranslateCoordinate(cs[j], arctic, k))
    {
      geometries[n] := Point(PostSplitTranslateCoordinate(cs[n], arctic, k));
    }
    r := geometries[..];
  }

  /** postSplitTranslateGeometry: the recursive dispatch. */
  method PostSplitTranslateGeometry(g: Geometry, arctic: bool, k: Kernel) returns (r: Result<Geometry>)
    ensures r == Unprojected(g, arctic, k)
    decreases g
  {
    match g {
      case Polygon(p) =>
        var q := PostSplitTranslatePolygon(p, arctic, k);
        r := Success(Polygon(q));
      case MultiPolygon(ps) =>
        var qs := PostSplitTranslateMultiPolygon(ps, arctic, k);
        assert qs == seq(|ps|, n requires 0 <= n < |ps| => UnprojectedPolygon(ps[n], arctic, k));
        r := Success(MultiPolygon(qs));
      case LineString(cs) =>
        var line := PostSplitTranslateCoordinateArray(cs, arctic, k);
        assert line == UnprojectedRing(cs, arctic, k);
        r := Success(LineString(line));
      case LinearRing(cs) =>
        var line := PostSplitTranslateCoordinateArray(cs, arctic, k);
        assert line == UnprojectedRing(cs, arctic, k);
        r := Success(LineString(line));
      case MultiLineString(ls) =>
        var lines := PostSplitTranslateLineStrings(ls, arctic, k);
        assert lines == seq(|ls|, n requires 0 <= n < |ls| => UnprojectedRing(ls[n], arctic, k));
        r := Success(MultiLineString(lines));
      case Point(c) =>
        r := Success(Point(PostSplitTranslateCoordinate(c, arctic, k)));
      case MultiPoint(cs) =>
        var points := PostSplitTranslatePoints(cs, arctic, k);
        assert points == seq(|cs|, n requires 0 <= n < |cs| => Point(PostSplitTranslateCoordinate(cs[n], arctic, k)));
        r := Success(GeometryCollection(points));
      case GeometryCollection(gs) =>
        ghost var rs := MembersUnprojected(gs, arctic, k);
        var geometries := new Geometry[|gs|];
        for n := 0 to |gs|
          invariant forall j :: 0 <= j < n ==> rs[j] == Success(geometries[j])
        {
          var m := PostSplitTranslateGeometry(gs[n], arctic, k);
          if m.Failure? {
            CollectFirstFailure(rs, n);
            return Failure(m.error);
          }
          geometries[n] := m.value;
        }
        assert forall j :: 0 <= j < |rs| ==> rs[j].Success?;
        assert Collect(rs).value == geometries[..];
        r := Success(GeometryCollection(geometries[..]));
      case Unsupported(wkt) =>
        r := Failure(UnsupportedError(wkt));
    }
  }
}
