/**
 * The geometry kernel the polar processor works on: coordinates, rings,
 * polygons and the JTS geometry kinds, with the exact segment predicates that
 * stand in for JTS `intersects`.
 */
module Geometries {

  /** A JTS `Coordinate`: (longitude, latitude) before projection, planar (x, y) after. */
  datatype Coord = Coord(x: real, y: real)

  /** A JTS `Polygon`: one exterior ring and its holes. */
  datatype Polygon = Rings(shell: seq<Coord>, holes: seq<seq<Coord>>)

  /**
   * The JTS geometry kinds. In JTS a `LinearRing` is a `LineString` and a
   * `MultiPoint` is a `GeometryCollection`, so `instanceof` sends them down
   * those branches. `Unsupported` is any other `Geometry` subclass, carried
   * with its text form for the error message.
   */
  datatype Geometry =
    | Point(coord: Coord)
    | LineString(coords: seq<Coord>)
    | LinearRing(coords: seq<Coord>)
    | Polygon(polygon: Polygon)
    | MultiPoint(points: seq<Coord>)
    | MultiLineString(lines: seq<seq<Coord>>)
    | MultiPolygon(polygons: seq<Polygon>)
    | GeometryCollection(members: seq<Geometry>)
    | Unsupported(wkt: string)

  /** What `GeometryFactory.createLinearRing` accepts: empty, or closed with at least four points. */
  predicate ValidRing(ring: seq<Coord>) {
    |ring| == 0 || (|ring| >= 4 && ring[0] == ring[|ring| - 1])
  }

  function Min(a: real, b: real): real { if a <= b then a else b }
  function Max(a: real, b: real): real { if a <= b then b else a }

  /**
   * Exact `intersects` of the two-point line string (a, b) with the point p:
   * p is collinear with a and b and inside their bounding box.
   */
  predicate SegmentContains(a: Coord, b: Coord, p: Coord) {
    && (b.x - a.x) * (p.y - a.y) == (b.y - a.y) * (p.x - a.x)
    && Min(a.x, b.x) <= p.x <= Max(a.x, b.x)
    && Min(a.y, b.y) <= p.y <= Max(a.y, b.y)
  }

  /** The point a fraction t of the way from a to b. */
  function Lerp(a: Coord, b: Coord, t: real): Coord {
    Coord(a.x + t * (b.x - a.x), a.y + t * (b.y - a.y))
  }

  lemma MulBetween(t: real, d: real)
    requires 0.0 <= t <= 1.0
    ensures Min(0.0, d) <= t * d <= Max(0.0, d)
  {
    if d >= 0.0 {
      assert t * d <= 1.0 * d;
    } else {
      assert t * -d <= 1.0 * -d;
    }
  }

  lemma RatioInUnit(n: real, d: real)
    requires d != 0.0 && Min(0.0, d) <= n <= Max(0.0, d)
    ensures 0.0 <= n / d <= 1.0 && (n / d) * d == n
  {
    var q := n / d;
    assert q * d == n;
    assert d < 0.0 && q > 1.0 ==> q * d < 1.0 * d;
  }

  /** Every point of the segment, a + t(b - a) with 0 <= t <= 1, is contained in it. */
  lemma LerpOnSegment(a: Coord, b: Coord, t: real)
    requires 0.0 <= t <= 1.0
    ensures SegmentContains(a, b, Lerp(a, b, t))
  {
    MulBetween(t, b.x - a.x);
    MulBetween(t, b.y - a.y);
    var p := Lerp(a, b, t);
    calc {
      (b.x - a.x) * (p.y - a.y);
      (b.x - a.x) * (t * (b.y - a.y));
      (b.y - a.y) * (t * (b.x - a.x));
      (b.y - a.y) * (p.x - a.x);
    }
  }

  /** Conversely, every point the segment contains is a + t(b - a) for some 0 <= t <= 1. */
  lemma SegmentPointIsLerp(a: Coord, b: Coord, p: Coord)
    requires SegmentContains(a, b, p)
    ensures exists t :: 0.0 <= t <= 1.0 && p == Lerp(a, b, t)
  {
    if a.x != b.x {
      var t := (p.x - a.x) / (b.x - a.x);
      RatioInUnit(p.x - a.x, b.x - a.x);
      assert (b.x - a.x) * (p.y - a.y) == (b.x - a.x) * (t * (b.y - a.y));
      assert p == Lerp(a, b, t);
    } else if a.y != b.y {
      var t := (p.y - a.y) / (b.y - a.y);
      RatioInUnit(p.y - a.y, b.y - a.y);
      assert p == Lerp(a, b, t);
    } else {
      assert p == Lerp(a, b, 0.0);
    }
  }

  // ---------------------------------------------------------------------
  // Shape: the kind of every node and the number of members at every level

  datatype Shape =
    | PointShape
    | LineShape
    | RingShape
    | PolygonShape(holes: nat)
    | MultiPointShape(points: nat)
    | MultiLineShape(lines: nat)
    | MultiPolygonShape(holeCounts: seq<nat>)
    | CollectionShape(members: seq<Shape>)
    | UnsupportedShape

  function ShapeOf(g: Geometry): Shape {
    match g
    case Point(_) => PointShape
    case LineString(_) => LineShape
    case LinearRing(_) => RingShape
    case Polygon(p) => PolygonShape(|p.holes|)
    case MultiPoint(cs) => MultiPointShape(|cs|)
    case MultiLineString(ls) => MultiLineShape(|ls|)
    case MultiPolygon(ps) => MultiPolygonShape(seq(|ps|, i requires 0 <= i < |ps| => |ps[i].holes|))
    case GeometryCollection(gs) => CollectionShape(seq(|gs|, i requires 0 <= i < |gs| => ShapeOf(gs[i])))
    case Unsupported(_) => UnsupportedShape
  }

  /**
   * The shape a walker's `instanceof` dispatch produces: a LinearRing comes
   * out of the LineString branch as a LineString, a MultiPoint out of the
   * GeometryCollection branch as a collection of points; every other kind,
   * and every member count, is kept.
   */
  function Walked(s: Shape): Shape {
    match s
    case RingShape => LineShape
    case MultiPointShape(n) => CollectionShape(seq(n, i => PointShape))
    case CollectionShape(ss) => CollectionShape(seq(|ss|, i requires 0 <= i < |ss| => Walked(ss[i])))
    case _ => s
  }

  /** Some node of g is of a kind that no walker branch accepts. */
  predicate HasUnsupported(g: Geometry) {
    match g
    case Unsupported(_) => true
    case GeometryCollection(gs) => exists i :: 0 <= i < |gs| && HasUnsupported(gs[i])
    case _ => false
  }

  /** g is built only from the six kinds the walkers name: no LinearRing, MultiPoint or other kind. */
  predicate SixKinds(g: Geometry) {
    match g
    case LinearRing(_) => false
    case MultiPoint(_) => false
    case Unsupported(_) => false
    case GeometryCollection(gs) => forall i :: 0 <= i < |gs| ==> SixKinds(gs[i])
    case _ => true
  }

  /** On the six named kinds the walkers keep the shape exactly. */
  lemma {:induction false} WalkedKeepsSixKinds(g: Geometry)
    requires SixKinds(g)
    ensures Walked(ShapeOf(g)) == ShapeOf(g)
  {
    if g.GeometryCollection? {
      forall i | 0 <= i < |g.members|
        ensures Walked(ShapeOf(g.members[i])) == ShapeOf(g.members[i])
      {
        WalkedKeepsSixKinds(g.members[i]);
      }
    }
  }

  /** A geometry of the six kinds holds nothing a walker rejects. */
  lemma {:induction false} SixKindsSupported(g: Geometry)
    requires SixKinds(g)
    ensures !HasUnsupported(g)
  {
    if g.GeometryCollection? {
      forall i | 0 <= i < |g.members| ensures !HasUnsupported(g.members[i]) {
        SixKindsSupported(g.members[i]);
      }
    }
  }

  /** Walking twice gives the shape walking once gives. */
  lemma {:induction false} WalkedIdempotent(s: Shape)
    ensures Walked(Walked(s)) == Walked(s)
  {
    match s
    case CollectionShape(ss) =>
      forall i | 0 <= i < |ss| ensures Walked(Walked(ss[i])) == Walked(ss[i]) {
        WalkedIdempotent(ss[i]);
      }
    case _ =>
  }

  // ---------------------------------------------------------------------
  // Parts: every coordinate sequence of a geometry, in order, with its role

  datatype Role = Exterior | Interior | Line | Vertex

  datatype Part = Part(role: Role, coords: seq<Coord>)

  function Flatten<T>(ss: seq<seq<T>>): seq<T> {
    if ss == [] then [] else ss[0] + Flatten(ss[1..])
  }

  function PolygonParts(p: Polygon): seq<Part> {
    [Part(Exterior, p.shell)] + seq(|p.holes|, i requires 0 <= i < |p.holes| => Part(Interior, p.holes[i]))
  }

  /** The coordinate sequences of g in the order JTS stores them, each tagged with its role. */
  function Parts(g: Geometry): seq<Part> {
    match g
    case Point(c) => [Part(Vertex, [c])]
    case LineString(cs) => [Part(Line, cs)]
    case LinearRing(cs) => [Part(Line, cs)]
    case Polygon(p) => PolygonParts(p)
    case MultiPoint(cs) => seq(|cs|, i requires 0 <= i < |cs| => Part(Vertex, [cs[i]]))
    case MultiLineString(ls) => seq(|ls|, i requires 0 <= i < |ls| => Part(Line, ls[i]))
    case MultiPolygon(ps) => Flatten(seq(|ps|, i requires 0 <= i < |ps| => PolygonParts(ps[i])))
    case GeometryCollection(gs) => Flatten(seq(|gs|, i requires 0 <= i < |gs| => Parts(gs[i])))
    case Unsupported(_) => []
  }

  /** ys is f applied to each element of xs. */
  ghost predicate Pointwise<A, B>(xs: seq<A>, ys: seq<B>, f: A -> B) {
    |xs| == |ys| && forall i :: 0 <= i < |xs| ==> ys[i] == f(xs[i])
  }

  lemma PointwiseConcat<A, B>(xs1: seq<A>, xs2: seq<A>, ys1: seq<B>, ys2: seq<B>, f: A -> B)
    requires Pointwise(xs1, ys1, f) && Pointwise(xs2, ys2, f)
    ensures Pointwise(xs1 + xs2, ys1 + ys2, f)
  {
    var xs, ys := xs1 + xs2, ys1 + ys2;
    forall i | 0 <= i < |xs| ensures ys[i] == f(xs[i]) {
      if i < |xs1| {
        assert xs[i] == xs1[i] && ys[i] == ys1[i];
      } else {
        assert xs[i] == xs2[i - |xs1|] && ys[i] == ys2[i - |xs1|];
      }
    }
  }

  /** Mapping every inner sequence maps the flattened sequence. */
  lemma {:induction false} FlattenPointwise<A, B>(ss: seq<seq<A>>, tt: seq<seq<B>>, f: A -> B)
    requires |ss| == |tt|
    requires forall i :: 0 <= i < |ss| ==> Pointwise(ss[i], tt[i], f)
    ensures Pointwise(Flatten(ss), Flatten(tt), f)
  {
    if ss != [] {
      FlattenPointwise(ss[1..], tt[1..], f);
      PointwiseConcat(ss[0], Flatten(ss[1..]), tt[0], Flatten(tt[1..]), f);
    }
  }

  /** Flattening a sequence of one-element sequences gives their elements. */
  lemma {:induction false} FlattenSingletons<T>(ss: seq<seq<T>>, xs: seq<T>)
    requires |ss| == |xs| && forall i :: 0 <= i < |ss| ==> ss[i] == [xs[i]]
    ensures Flatten(ss) == xs
  {
    if ss != [] {
      FlattenSingletons(ss[1..], xs[1..]);
    }
  }
}
