/**
 * splitPolar: the whole pipeline. The polygon's pole is chosen, the split
 * decision is taken on its projection, and a polygon that must be split is
 * cut along the seam by an external splitter, given pole vertices and
 * unprojected.
 */
module PolarProcessor {
  import opened Wrappers
  import opened Numerics
  import opened Geometries
  import opened Projection
  import opened Walkers
  import opened Classifier

  /**
   * The pipeline after the decision: nothing when there is nothing to split,
   * otherwise the cut polygon with pole vertices, unprojected from the
   * polygon's own pole. Either walker's error ends it.
   */
  function SplitAfter(decision: Option<Polygon>, arctic: bool, k: Kernel, split180: Polygon -> Geometry)
    : Result<Option<Geometry>>
  {
    match decision
    case None => Success(None)
    case Some(preSplit) =>
      match WithPolarCoordinates(split180(preSplit))
      case Failure(e) => Failure(e)
      case Success(g) =>
        (match Unprojected(g, arctic, k)
         case Failure(e) => Failure(e)
         case Success(h) => Success(Some(h)))
  }

  /** What splitPolar returns for p, with the cut along the seam given as split180. */
  function SplitPolarResult(p: Polygon, k: Kernel, split180: Polygon -> Geometry): Result<Option<Geometry>> {
    SplitAfter(SplitDecision(p, k), IsArctic(p), k, split180)
  }

  /** splitPolar with the corrected split decision. */
  function CorrectedSplitPolarResult(p: Polygon, k: Kernel, split180: Polygon -> Geometry): Result<Option<Geometry>> {
    SplitAfter(CorrectedSplitDecision(p, k), IsArctic(p), k, split180)
  }

  /**
   * splitPolar: decide with isPolar, then pass the polygon to split must
   * go through split180, addPolarCoordinate and postSplitTranslateGeometry,
   * with the pole chosen by isArctic on the original polygon.
   */
  method SplitPolar(p: Polygon, k: Kernel, split180: Polygon -> Geometry) returns (r: Result<Option<Geometry>>)
    ensures r == SplitPolarResult(p, k, split180)
  {
    var arctic := IsArctic(p);
    var preSplit := IsPolar(p, k);
    match preSplit {
      case None =>
        r := Success(None);
      case Some(q) =>
        var withPoles := AddPolarCoordinate(split180(q));
        if withPoles.Failure? {
          return Failure(withPoles.error);
        }
        var translated := PostSplitTranslateGeometry(withPoles.value, arctic, k);
        if translated.Failure? {
          return Failure(translated.error);
        }
        r := Success(Some(translated.value));
    }
  }

  /**
   * splitPolar is empty exactly when isPolar is, fails exactly when the cut
   * holds a kind the walkers reject, and otherwise returns a geometry.
   */
  lemma SplitPolarOutcome(decision: Option<Polygon>, arctic: bool, k: Kernel, split180: Polygon -> Geometry)
    ensures SplitAfter(decision, arctic, k, split180) == Success(None) <==> decision == None
    ensures SplitAfter(decision, arctic, k, split180).Failure? <==>
      decision.Some? && HasUnsupported(split180(decision.value))
  {
    if decision.Some? {
      var g := split180(decision.value);
      WithPolarCoordinatesFails(g);
      if WithPolarCoordinates(g).Success? {
        WithPolarCoordinatesSixKinds(g);
        SixKindsSupported(WithPolarCoordinates(g).value);
        UnprojectedFails(WithPolarCoordinates(g).value, arctic, k);
      }
    }
  }

  /**
   * The geometry splitPolar returns has the cut's shape, with LinearRings
   * turned into LineStrings and MultiPoints into collections of points.
   */
  lemma SplitPolarShape(decision: Option<Polygon>, arctic: bool, k: Kernel, split180: Polygon -> Geometry)
    requires SplitAfter(decision, arctic, k, split180).Success?
    requires SplitAfter(decision, arctic, k, split180).value.Some?
    ensures ShapeOf(SplitAfter(decision, arctic, k, split180).value.value) == Walked(ShapeOf(split180(decision.value)))
  {
    var g := split180(decision.value);
    var withPoles := WithPolarCoordinates(g).value;
    WithPolarCoordinatesShape(g);
    UnprojectedShape(withPoles, arctic, k);
    WalkedIdempotent(ShapeOf(g));
  }

  /** Each coordinate sequence, pole vertices first (on exteriors and lines), then unprojection. */
  function PartThroughPipeline(part: Part, arctic: bool, k: Kernel): Part {
    UnprojectedPart(PartWithPoleVertices(part), arctic, k)
  }

  /**
   * Every coordinate sequence of the cut comes back in its place and with its
   * role: exterior rings and lines with their pole vertices added, holes and
   * points as they were, and every coordinate then unprojected.
   */
  lemma SplitPolarParts(decision: Option<Polygon>, arctic: bool, k: Kernel, split180: Polygon -> Geometry)
    requires SplitAfter(decision, arctic, k, split180).Success?
    requires SplitAfter(decision, arctic, k, split180).value.Some?
    ensures Pointwise(Parts(split180(decision.value)), Parts(SplitAfter(decision, arctic, k, split180).value.value),
                      part => PartThroughPipeline(part, arctic, k))
  {
    var g := split180(decision.value);
    var withPoles := WithPolarCoordinates(g).value;
    WithPolarCoordinatesParts(g);
    UnprojectedParts(withPoles, arctic, k);
  }

  /**
   * With the corrected decision, a polygon whose shifted projection stays on
   * one side of the seam's line is never split.
   */
  lemma CorrectedSplitPolarHalfPlane(p: Polygon, k: Kernel, split180: Polygon -> Geometry)
    requires var s := ProjectedPolygon(p, IsArctic(p), k).shell;
      && ValidRing(s)
      && ((forall i :: 0 <= i < |s| ==> Shifted(s)[i].x <= 0.0) ||
          (forall i :: 0 <= i < |s| ==> Shifted(s)[i].x >= 0.0 && Shifted(s)[i].y <= 360.0))
    ensures CorrectedSplitPolarResult(p, k, split180) == Success(None)
  {
    CorrectedHalfPlaneNeverSplits(ProjectedPolygon(p, IsArctic(p), k));
  }
}
