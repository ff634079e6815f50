/**
 * Which pole a polygon belongs to (isArctic) and whether, seen from that
 * pole, its exterior ring winds round it so that it must be split (isPolar).
 *
 * The decision works in the projected plane shifted by a half turn, where the
 * pole is the origin and the seam at longitude 0 is the vertical mask segment
 * from (0, 0) to (0, 360); the ring is split when it meets the mask in an odd
 * number of distinct points.
 */
module Classifier {
  import opened Wrappers
  import opened Numerics
  import opened Geometries
  import opened Projection

  // ---------------------------------------------------------------------
  // Hemisphere choice (isArctic)

  /** The largest latitude of a ring: above or equal to every vertex's, and some vertex's. */
  function MaxLat(s: seq<Coord>): (m: real)
    requires |s| > 0
    ensures forall i :: 0 <= i < |s| ==> s[i].y <= m
    ensures exists i :: 0 <= i < |s| && s[i].y == m
    decreases |s|
  {
    if |s| == 1 then s[0].y
    else
      var m := MaxLat(s[..|s| - 1]);
      assert forall i :: 0 <= i < |s| - 1 ==> s[..|s| - 1][i] == s[i];
      if s[|s| - 1].y > m then s[|s| - 1].y else m
  }

  /** The smallest latitude of a ring: below or equal to every vertex's, and some vertex's. */
  function MinLat(s: seq<Coord>): (m: real)
    requires |s| > 0
    ensures forall i :: 0 <= i < |s| ==> m <= s[i].y
    ensures exists i :: 0 <= i < |s| && s[i].y == m
    decreases |s|
  {
    if |s| == 1 then s[0].y
    else
      var m := MinLat(s[..|s| - 1]);
      assert forall i :: 0 <= i < |s| - 1 ==> s[..|s| - 1][i] == s[i];
      if s[|s| - 1].y < m then s[|s| - 1].y else m
  }

  /**
   * The envelope's maximum latitude. A polygon's envelope is its exterior
   * ring's; an empty ring has the null envelope, whose maximum is -1.
   */
  function EnvelopeMaxY(p: Polygon): real {
    if |p.shell| == 0 then -1.0 else MaxLat(p.shell)
  }

  /** The envelope's minimum latitude; 0 for the null envelope of an empty ring. */
  function EnvelopeMinY(p: Polygon): real {
    if |p.shell| == 0 then 0.0 else MinLat(p.shell)
  }

  /**
   * isArctic: the polygon's envelope is no farther from the north pole than
   * from the south pole. An empty ring, whose envelope is null, is never
   * arctic; otherwise the ring reaches at least as far north as it reaches
   * south.
   */
  predicate IsArctic(p: Polygon) {
    90.0 - EnvelopeMaxY(p) <= 90.0 + EnvelopeMinY(p)
  }

  /** Some vertex's latitude, added to any vertex's latitude, is never negative. */
  ghost predicate NorthernmostOutweighs(s: seq<Coord>) {
    exists j :: 0 <= j < |s| && forall i :: 0 <= i < |s| ==> s[i].y + s[j].y >= 0.0
  }

  /**
   * isArctic in terms of the vertices alone: the ring is not empty and its
   * northernmost vertex lies at least as far north as its southernmost lies
   * south; equivalently, some vertex lies at least as far north as every
   * vertex lies south.
   */
  lemma IsArcticVertices(p: Polygon)
    ensures IsArctic(p) <==> |p.shell| > 0 && -MinLat(p.shell) <= MaxLat(p.shell)
    ensures IsArctic(p) <==> NorthernmostOutweighs(p.shell)
  {
    var s := p.shell;
    if |s| > 0 {
      var j :| 0 <= j < |s| && s[j].y == MaxLat(s);
      var m :| 0 <= m < |s| && s[m].y == MinLat(s);
      if IsArctic(p) {
        assert forall i :: 0 <= i < |s| ==> s[i].y + s[j].y >= 0.0;
      }
      if NorthernmostOutweighs(s) {
        var j' :| 0 <= j' < |s| && forall i :: 0 <= i < |s| ==> s[i].y + s[j'].y >= 0.0;
        assert s[m].y + s[j'].y >= 0.0;
      }
    }
  }

  /**
   * The choice depends only on the latitudes the ring visits, not on their
   * order, the starting vertex or the holes.
   */
  lemma IsArcticSameCoordinates(p: Polygon, q: Polygon)
    requires multiset(p.shell) == multiset(q.shell)
    ensures IsArctic(p) == IsArctic(q)
  {
    assert |p.shell| == |multiset(p.shell)| == |multiset(q.shell)| == |q.shell|;
    if |p.shell| > 0 {
      MaxLatSameCoordinates(p.shell, q.shell);
      MaxLatSameCoordinates(q.shell, p.shell);
      MinLatSameCoordinates(p.shell, q.shell);
      MinLatSameCoordinates(q.shell, p.shell);
    }
  }

  lemma MaxLatSameCoordinates(s: seq<Coord>, u: seq<Coord>)
    requires |s| > 0 && |u| > 0 && multiset(s) == multiset(u)
    ensures MaxLat(s) <= MaxLat(u)
  {
    var i :| 0 <= i < |s| && s[i].y == MaxLat(s);
    assert s[i] in multiset(u);
    var j :| 0 <= j < |u| && u[j] == s[i];
  }

  lemma MinLatSameCoordinates(s: seq<Coord>, u: seq<Coord>)
    requires |s| > 0 && |u| > 0 && multiset(s) == multiset(u)
    ensures MinLat(u) <= MinLat(s)
  {
    var i :| 0 <= i < |s| && s[i].y == MinLat(s);
    assert s[i] in multiset(u);
    var j :| 0 <= j < |u| && u[j] == s[i];
  }

  /**
   * A ring with no vertex south of the equator is arctic; a ring with no
   * vertex north of it and one strictly south is not; an empty ring is not.
   * A ring reaching as far north as south is arctic: ties go north.
   */
  lemma IsArcticHemispheres(p: Polygon)
    ensures |p.shell| > 0 && (forall i :: 0 <= i < |p.shell| ==> p.shell[i].y >= 0.0) ==> IsArctic(p)
    ensures ((forall i :: 0 <= i < |p.shell| ==> p.shell[i].y <= 0.0) &&
             (exists i :: 0 <= i < |p.shell| && p.shell[i].y < 0.0)) ==> !IsArctic(p)
    ensures |p.shell| == 0 ==> !IsArctic(p)
    ensures |p.shell| > 0 && MaxLat(p.shell) == -MinLat(p.shell) ==> IsArctic(p)
  {
    if |p.shell| > 0 {
      var i :| 0 <= i < |p.shell| && p.shell[i].y == MinLat(p.shell);
      var j :| 0 <= j < |p.shell| && p.shell[j].y == MaxLat(p.shell);
    }
  }

  /** A ring of proper latitudes with a vertex on the north pole is arctic. */
  lemma IsArcticNorthPole(p: Polygon, i: nat)
    requires forall j :: 0 <= j < |p.shell| ==> -90.0 <= p.shell[j].y <= 90.0
    requires i < |p.shell| && p.shell[i].y == 90.0
    ensures IsArctic(p)
  {
    var j :| 0 <= j < |p.shell| && p.shell[j].y == MinLat(p.shell);
  }

  // ---------------------------------------------------------------------
  // The shifted plane (shiftCoordinate) and the mask

  /**
   * shiftCoordinate: a fresh coordinate with x moved by a half turn and
   * wrapped into (-180, 180], y unchanged. The planar pole (180, 0) and its
   * mirror (-180, 0) both land on the origin.
   */
  function ShiftCoordinate(c: Coord): (r: Coord)
    ensures r.y == c.y
    ensures r.x == c.x + 180.0 || r.x == c.x - 180.0
    ensures -180.0 < c.x + 180.0 <= 540.0 ==> -180.0 < r.x <= 180.0
    ensures c.x == 180.0 || c.x == -180.0 ==> r.x == 0.0
  {
    Coord(Fold180(c.x + 180.0), c.y)
  }

  /** A ring in the shifted plane. */
  function Shifted(s: seq<Coord>): (t: seq<Coord>)
    ensures |t| == |s| && forall i :: 0 <= i < |s| ==> t[i] == ShiftCoordinate(s[i])
    ensures ValidRing(s) ==> ValidRing(t)
  {
    seq(|s|, i requires 0 <= i < |s| => ShiftCoordinate(s[i]))
  }

  /** The pole, in the shifted plane. */
  const Origin := Coord(0.0, 0.0)

  /** The far end of the mask segment from the origin. */
  const MaskTop := Coord(0.0, 360.0)

  /** The mask segment is the part of the y axis between 0 and 360. */
  lemma OnMask(q: Coord)
    ensures SegmentContains(Origin, MaskTop, q) <==> q.x == 0.0 && 0.0 <= q.y <= 360.0
  {
  }

  /** q lies on both the segment (a, b) and the mask. */
  predicate MeetsMask(a: Coord, b: Coord, q: Coord) {
    SegmentContains(a, b, q) && SegmentContains(Origin, MaskTop, q)
  }

  /**
   * The intersection of the segment (a, b) with the mask when it is a single
   * point, as JTS `intersection` reports a `Point`; None when the segment
   * misses the mask or overlaps it along a piece of the y axis.
   */
  function MaskCrossing(a: Coord, b: Coord): Option<Coord> {
    if a.x == 0.0 && b.x == 0.0 then
      var lo := Max(Min(a.y, b.y), 0.0);
      var hi := Min(Max(a.y, b.y), 360.0);
      if lo == hi then Some(Coord(0.0, lo)) else None
    else if Min(a.x, b.x) <= 0.0 <= Max(a.x, b.x) then
      var p := Lerp(a, b, (0.0 - a.x) / (b.x - a.x));
      if 0.0 <= p.y <= 360.0 then Some(Coord(0.0, p.y)) else None
    else None
  }

  /**
   * MaskCrossing is exact: Some(p) means p is the one point the segment and
   * the mask share, and None means they share no point or at least two.
   */
  lemma MaskCrossingExact(a: Coord, b: Coord)
    ensures MaskCrossing(a, b).Some? ==>
      MeetsMask(a, b, MaskCrossing(a, b).value) &&
      forall q :: MeetsMask(a, b, q) ==> q == MaskCrossing(a, b).value
    ensures MaskCrossing(a, b).None? ==>
      (forall q :: !MeetsMask(a, b, q)) ||
      (exists q1, q2 :: q1 != q2 && MeetsMask(a, b, q1) && MeetsMask(a, b, q2))
  {
    if a.x == 0.0 && b.x == 0.0 {
      MaskCrossingAlongAxis(a, b);
    } else if Min(a.x, b.x) <= 0.0 <= Max(a.x, b.x) {
      MaskCrossingAcross(a, b);
    } else {
      forall q ensures !MeetsMask(a, b, q) {
        OnMask(q);
      }
    }
  }

  /** A segment on the y axis meets the mask in the overlap of their y ranges. */
  lemma MaskCrossingAlongAxis(a: Coord, b: Coord)
    requires a.x == 0.0 && b.x == 0.0
    ensures var lo, hi := Max(Min(a.y, b.y), 0.0), Min(Max(a.y, b.y), 360.0);
      forall q :: MeetsMask(a, b, q) <==> q.x == 0.0 && lo <= q.y <= hi
  {
    forall q ensures MeetsMask(a, b, q) <==> q.x == 0.0 && Max(Min(a.y, b.y), 0.0) <= q.y <= Min(Max(a.y, b.y), 360.0) {
      OnMask(q);
    }
  }

  /** A segment with ends on both sides of the y axis meets it in exactly one point. */
  lemma MaskCrossingAcross(a: Coord, b: Coord)
    requires !(a.x == 0.0 && b.x == 0.0) && Min(a.x, b.x) <= 0.0 <= Max(a.x, b.x)
    ensures var p := Lerp(a, b, (0.0 - a.x) / (b.x - a.x));
      && p.x == 0.0 && SegmentContains(a, b, p)
      && forall q :: SegmentContains(a, b, q) && q.x == 0.0 ==> q == p
  {
    AxisPoint(a, b);
    forall q | SegmentContains(a, b, q) && q.x == 0.0 ensures q == Lerp(a, b, (0.0 - a.x) / (b.x - a.x)) {
      AxisPointUnique(a, b, q);
    }
  }

  lemma AxisPoint(a: Coord, b: Coord)
    requires a.x != b.x && Min(a.x, b.x) <= 0.0 <= Max(a.x, b.x)
    ensures var p := Lerp(a, b, (0.0 - a.x) / (b.x - a.x));
      p.x == 0.0 && SegmentContains(a, b, p)
  {
    var t := (0.0 - a.x) / (b.x - a.x);
    RatioInUnit(0.0 - a.x, b.x - a.x);
    LerpOnSegment(a, b, t);
  }

  lemma AxisPointUnique(a: Coord, b: Coord, q: Coord)
    requires a.x != b.x && Min(a.x, b.x) <= 0.0 <= Max(a.x, b.x)
    requires SegmentContains(a, b, q) && q.x == 0.0
    ensures q == Lerp(a, b, (0.0 - a.x) / (b.x - a.x))
  {
    var t := (0.0 - a.x) / (b.x - a.x);
    RatioInUnit(0.0 - a.x, b.x - a.x);
    SegmentPointIsLerp(a, b, q);
    var u :| 0.0 <= u <= 1.0 && q == Lerp(a, b, u);
    LerpXInjective(a, b, u, t);
  }

  /** Off a vertical line, different fractions give different x. */
  lemma LerpXInjective(a: Coord, b: Coord, u: real, t: real)
    requires a.x != b.x && Lerp(a, b, u).x == Lerp(a, b, t).x
    ensures u == t
  {
    assert (u - t) * (b.x - a.x) == 0.0;
  }

  /** The mask crossing of one segment, as a set of at most one point. */
  function CrossingOf(a: Coord, b: Coord): set<Coord> {
    match MaskCrossing(a, b)
    case Some(p) => {p}
    case None => {}
  }

  /** The distinct mask crossings of the segments of a shifted ring. */
  function MaskCrossings(t: seq<Coord>): set<Coord>
    decreases |t|
  {
    if |t| < 2 then {} else MaskCrossings(t[..|t| - 1]) + CrossingOf(t[|t| - 2], t[|t| - 1])
  }

  /** A point is a recorded crossing exactly when some segment of the ring crosses the mask there alone. */
  lemma {:induction false} MaskCrossingsMembers(t: seq<Coord>, p: Coord)
    ensures p in MaskCrossings(t) <==> exists i :: 1 <= i < |t| && MaskCrossing(t[i - 1], t[i]) == Some(p)
    decreases |t|
  {
    if |t| >= 2 {
      var u := t[..|t| - 1];
      MaskCrossingsMembers(u, p);
      assert forall i :: 0 <= i < |u| ==> u[i] == t[i];
    }
  }

  /** Whether a vertex is the pole or a segment passes through it, prefix by prefix. */
  function TouchesPole(t: seq<Coord>): bool
    decreases |t|
  {
    if |t| == 0 then false
    else
      || TouchesPole(t[..|t| - 1])
      || t[|t| - 1] == Origin
      || (|t| >= 2 && SegmentContains(t[|t| - 2], t[|t| - 1], Origin))
  }

  /** A shifted ring touches the pole exactly when one of its vertices or segments does. */
  lemma {:induction false} TouchesPoleIff(t: seq<Coord>)
    ensures TouchesPole(t) <==>
      (exists i :: 0 <= i < |t| && t[i] == Origin) ||
      (exists i :: 1 <= i < |t| && SegmentContains(t[i - 1], t[i], Origin))
    decreases |t|
  {
    if |t| > 0 {
      var u := t[..|t| - 1];
      TouchesPoleIff(u);
      assert forall i :: 0 <= i < |u| ==> u[i] == t[i];
    }
  }

  /** Touching the pole in a prefix is touching it in the whole ring. */
  lemma TouchesPolePrefix(t: seq<Coord>, m: nat)
    requires m <= |t| && TouchesPole(t[..m])
    ensures TouchesPole(t)
  {
    TouchesPoleIff(t[..m]);
    TouchesPoleIff(t);
    if i :| 0 <= i < m && t[..m][i] == Origin {
      assert t[i] == Origin;
    } else {
      var i :| 1 <= i < m && SegmentContains(t[..m][i - 1], t[..m][i], Origin);
      assert SegmentContains(t[i - 1], t[i], Origin);
    }
  }

  /** One more vertex: the new vertex and the new segment are tested. */
  lemma TouchesPoleStep(t: seq<Coord>, i: nat)
    requires i < |t|
    ensures TouchesPole(t[..i + 1]) ==
      (TouchesPole(t[..i]) || t[i] == Origin || (i >= 1 && SegmentContains(t[i - 1], t[i], Origin)))
  {
    assert t[..i + 1][..i] == t[..i];
  }

  /** One more vertex: the crossing of the new segment, if any, joins the set. */
  lemma MaskCrossingsStep(t: seq<Coord>, i: nat)
    requires 1 <= i < |t|
    ensures MaskCrossings(t[..i + 1]) == MaskCrossings(t[..i]) + CrossingOf(t[i - 1], t[i])
  {
    assert t[..i + 1][..i] == t[..i];
  }

  // ---------------------------------------------------------------------
  // The split decision (isPolar)

  /**
   * The decision on a projected polygon, as isPolar takes it: none when the
   * shifted exterior ring touches the pole, otherwise the projected polygon
   * itself when the ring meets the mask in an odd number of distinct points.
   */
  function Decide(q: Polygon): Option<Polygon> {
    var t := Shifted(q.shell);
    if TouchesPole(t) then None
    else if |MaskCrossings(t)| % 2 == 1 then Some(q)
    else None
  }

  /** What isPolar returns for p: the decision on p's projection from its own pole. */
  function SplitDecision(p: Polygon, k: Kernel): Option<Polygon> {
    Decide(ProjectedPolygon(p, IsArctic(p), k))
  }

  /**
   * isPolar: projects the polygon, then walks its exterior ring once,
   * returning at the first vertex or segment on the pole and collecting the
   * distinct single-point crossings of the mask in a set.
   */
  method IsPolar(p: Polygon, k: Kernel) returns (r: Option<Polygon>)
    ensures r == SplitDecision(p, k)
  {
    var polygon := PreSplitTranslatePolygon(p, IsArctic(p), k);
    var crossings: set<Coord> := {};
    var ext := polygon.shell;
    ghost var t := Shifted(ext);
    for i := 0 to |ext|
      invariant crossings == MaskCrossings(t[..i])
      invariant !TouchesPole(t[..i])
    {
      TouchesPoleStep(t, i);
      var c := ShiftCoordinate(ext[i]);
      if c == Origin {
        TouchesPolePrefix(t, i + 1);
        return None;
      }
      if i == 0 {
        continue;
      }
      MaskCrossingsStep(t, i);
      var c1 := ShiftCoordinate(ext[i - 1]);
      if SegmentContains(c1, c, Origin) {
        TouchesPolePrefix(t, i + 1);
        return None;
      }
      var crossing := MaskCrossing(c1, c);
      if crossing.Some? {
        crossings := crossings + {crossing.value};
      }
    }
    assert t[..|ext|] == t;
    if |crossings| % 2 == 1 {
      return Some(polygon);
    }
    return None;
  }

  /**
   * A polygon with a vertex exactly on its own pole is never split: the
   * projection puts that vertex on (180, 0), which the shift puts on the
   * origin.
   */
  lemma PoleVertexNeverSplits(p: Polygon, k: Kernel, i: nat)
    requires Valid(k)
    requires i < |p.shell| && p.shell[i].y == (if IsArctic(p) then 90.0 else -90.0)
    ensures SplitDecision(p, k) == None
  {
    var t := Shifted(ProjectedPolygon(p, IsArctic(p), k).shell);
    assert t[i] == Origin;
    TouchesPoleIff(t);
  }

  /**
   * The ring (0 60, 180 60, 90 60, 0 60) is not split: its first segment
   * runs from longitude 0 to longitude 180 over the north pole. The kernel is
   * taken exact at the angles +-90 and at the distances +-30 it meets there.
   */
  lemma NotPolarOnPole(k: Kernel)
    requires Valid(k)
    requires k.cosDeg(90.0) == 0.0 && k.sinDeg(90.0) == 1.0 && k.cosDeg(-90.0) == 0.0 && k.sinDeg(-90.0) == -1.0
    requires k.round11(30.0) == 30.0 && k.round11(-30.0) == -30.0
    ensures SplitDecision(Rings([Coord(0.0, 60.0), Coord(180.0, 60.0), Coord(90.0, 60.0), Coord(0.0, 60.0)], []), k) == None
  {
    var p := Rings([Coord(0.0, 60.0), Coord(180.0, 60.0), Coord(90.0, 60.0), Coord(0.0, 60.0)], []);
    assert MaxLat(p.shell) == 60.0 && MinLat(p.shell) == 60.0;
    assert IsArctic(p);
    OverThePole(k);
    var t := Shifted(ProjectedPolygon(p, true, k).shell);
    assert t[0] == ShiftCoordinate(PreSplitTranslateCoordinate(Coord(0.0, 60.0), true, k));
    assert t[1] == ShiftCoordinate(PreSplitTranslateCoordinate(Coord(180.0, 60.0), true, k));
    assert SegmentContains(t[0], t[1], Origin);
    TouchesPoleIff(t);
  }

  /** Longitudes 0 and 180 at latitude 60 project to either side of the north pole. */
  lemma OverThePole(k: Kernel)
    requires Valid(k)
    requires k.cosDeg(90.0) == 0.0 && k.sinDeg(90.0) == 1.0 && k.cosDeg(-90.0) == 0.0 && k.sinDeg(-90.0) == -1.0
    requires k.round11(30.0) == 30.0 && k.round11(-30.0) == -30.0
    ensures ShiftCoordinate(PreSplitTranslateCoordinate(Coord(0.0, 60.0), true, k)) == Coord(0.0, 30.0)
    ensures ShiftCoordinate(PreSplitTranslateCoordinate(Coord(180.0, 60.0), true, k)) == Coord(0.0, -30.0)
  {
    assert PolarAngle(0.0) == 90.0 && PolarAngle(180.0) == -90.0;
    assert PlanarX(Coord(0.0, 60.0), true, k) == 180.0 && PlanarY(Coord(0.0, 60.0), true, k) == 30.0;
    assert PlanarX(Coord(180.0, 60.0), true, k) == 180.0 && PlanarY(Coord(180.0, 60.0), true, k) == -30.0;
  }

  // ---------------------------------------------------------------------
  // The tangent touch, and the half-open crossing rule

  /**
   * A ring that only touches the mask at one vertex, from the x < 0 side,
   * is split: both segments at that vertex report the same point, the set
   * keeps it once, and one is odd. Yet such a ring lies in the closed
   * half-plane x <= 0 and does not wind round the pole.
   */
  lemma TangentTouchSplits(y0: real, a: Coord, b: Coord)
    requires 0.0 < y0 <= 360.0
    requires 0.0 < a.x < 180.0 && 0.0 < a.y && 0.0 < b.x < 180.0 && 0.0 < b.y
    ensures var q := Rings([Coord(180.0, y0), a, b, Coord(180.0, y0)], []);
      && (forall i :: 0 <= i < |q.shell| ==> Shifted(q.shell)[i].x <= 0.0)
      && Decide(q) == Some(q)
  {
    var s := [Coord(180.0, y0), a, b, Coord(180.0, y0)];
    var t := Shifted(s);
    var v, a', b' := Coord(0.0, y0), Coord(a.x - 180.0, a.y), Coord(b.x - 180.0, b.y);
    assert t == [v, a', b', v];
    TouchFromLeft(v, a');
    TouchFromLeft(v, b');
    assert MaskCrossing(a', b') == None;
    assert !SegmentContains(a', b', Origin);
    assert t[..3][..2] == t[..2] && t[..2][..1] == t[..1] && t[..3] == t[..|t| - 1] && t[..2] == t[..3][..2];
    assert MaskCrossings(t[..2]) == {v};
    assert MaskCrossings(t[..3]) == {v};
    assert MaskCrossings(t) == {v};
    assert t[..0] == [] && t[..4] == t;
    TouchesPoleStep(t, 0);
    TouchesPoleStep(t, 1);
    TouchesPoleStep(t, 2);
    TouchesPoleStep(t, 3);
  }

  /** A segment from a point v above the pole on the mask to a point w left of it meets the mask at v only. */
  lemma TouchFromLeft(v: Coord, w: Coord)
    requires v.x == 0.0 && 0.0 < v.y <= 360.0 && w.x < 0.0 && 0.0 < w.y
    ensures MaskCrossing(v, w) == Some(v) && MaskCrossing(w, v) == Some(v)
    ensures !SegmentContains(v, w, Origin) && !SegmentContains(w, v, Origin)
  {
    assert (0.0 - v.x) / (w.x - v.x) == 0.0;
    assert (0.0 - w.x) / (v.x - w.x) == 1.0;
  }

  /**
   * The half-open crossing rule: the segment (a, b) crosses the seam ray when
   * exactly one of its ends lies strictly right of the y axis and the point
   * where it meets the axis is on the mask. A vertex on the axis counts as
   * left, so a ring passing through it counts once and a ring touching it
   * counts twice or not at all.
   */
  predicate CrossesSeam(a: Coord, b: Coord) {
    (a.x > 0.0) != (b.x > 0.0) && 0.0 <= Lerp(a, b, (0.0 - a.x) / (b.x - a.x)).y <= 360.0
  }

  /** The number of segments of a shifted ring that cross the seam by the half-open rule. */
  function SeamCrossings(t: seq<Coord>): nat
    decreases |t|
  {
    if |t| < 2 then 0
    else SeamCrossings(t[..|t| - 1]) + (if CrossesSeam(t[|t| - 2], t[|t| - 1]) then 1 else 0)
  }

  /** isPolar's decision with the half-open count in place of the set of distinct crossing points. */
  function CorrectedDecide(q: Polygon): Option<Polygon> {
    var t := Shifted(q.shell);
    if TouchesPole(t) then None
    else if SeamCrossings(t) % 2 == 1 then Some(q)
    else None
  }

  /** The corrected decision for p, on p's projection from its own pole. */
  function CorrectedSplitDecision(p: Polygon, k: Kernel): Option<Polygon> {
    CorrectedDecide(ProjectedPolygon(p, IsArctic(p), k))
  }

  /** p is on the seam ray proper: on the mask, above the pole. */
  predicate AboveOnMask(p: Coord) {
    p.x == 0.0 && 0.0 < p.y <= 360.0
  }

  /** In the half-plane x >= 0 a segment crosses the seam exactly when it enters or leaves the ray. */
  lemma SeamStepRight(a: Coord, b: Coord)
    requires a.x >= 0.0 && b.x >= 0.0 && a.y <= 360.0 && b.y <= 360.0
    requires a != Origin && b != Origin && !SegmentContains(a, b, Origin)
    ensures CrossesSeam(a, b) <==> AboveOnMask(a) != AboveOnMask(b)
  {
    if a.x == 0.0 && b.x == 0.0 && AboveOnMask(a) != AboveOnMask(b) {
      assert SegmentContains(a, b, Origin);
    }
    if a.x > 0.0 && b.x == 0.0 {
      assert (0.0 - a.x) / (b.x - a.x) == 1.0;
    }
  }

  /** In the half-plane x >= 0 the count is odd exactly when one end of the ring is on the ray and the other is not. */
  lemma {:induction false} SeamCrossingsParityRight(t: seq<Coord>)
    requires |t| > 0 && !TouchesPole(t)
    requires forall i :: 0 <= i < |t| ==> t[i].x >= 0.0 && t[i].y <= 360.0
    ensures SeamCrossings(t) % 2 == (if AboveOnMask(t[0]) == AboveOnMask(t[|t| - 1]) then 0 else 1)
    decreases |t|
  {
    if |t| >= 2 {
      var u := t[..|t| - 1];
      assert forall i :: 0 <= i < |u| ==> u[i] == t[i];
      if |u| >= 2 {
        assert u[..|u| - 1] == t[..|t| - 2];
      }
      assert !TouchesPole(u);
      SeamCrossingsParityRight(u);
      SeamStepRight(t[|t| - 2], t[|t| - 1]);
    }
  }

  /** In the half-plane x <= 0 no segment crosses the seam. */
  lemma {:induction false} SeamCrossingsLeft(t: seq<Coord>)
    requires forall i :: 0 <= i < |t| ==> t[i].x <= 0.0
    ensures SeamCrossings(t) == 0
    decreases |t|
  {
    if |t| >= 2 {
      SeamCrossingsLeft(t[..|t| - 1]);
    }
  }

  /**
   * Under the half-open rule a closed ring that stays on one side of the
   * seam's line (in the closed half-plane x <= 0, or in x >= 0 within the
   * planar square) is never split, even when it touches the mask.
   */
  lemma CorrectedHalfPlaneNeverSplits(q: Polygon)
    requires ValidRing(q.shell)
    requires || (forall i :: 0 <= i < |q.shell| ==> Shifted(q.shell)[i].x <= 0.0)
             || (forall i :: 0 <= i < |q.shell| ==> Shifted(q.shell)[i].x >= 0.0 && Shifted(q.shell)[i].y <= 360.0)
    ensures CorrectedDecide(q) == None
  {
    var t := Shifted(q.shell);
    if !TouchesPole(t) {
      if forall i :: 0 <= i < |t| ==> t[i].x <= 0.0 {
        SeamCrossingsLeft(t);
      } else if |t| > 0 {
        SeamCrossingsParityRight(t);
      }
    }
  }

  /**
   * The projected ring of the arctic circle at latitude 70, as the
   * projection gives it: a diamond round the pole. Both the code as written
   * and the half-open rule split it.
   */
  lemma DiamondSplitsEitherWay(q: Polygon)
    requires q == Rings([Coord(180.0, -20.0), Coord(160.0, 0.0), Coord(180.0, 20.0), Coord(-160.0, 0.0), Coord(180.0, -20.0)], [])
    ensures Decide(q) == Some(q) && CorrectedDecide(q) == Some(q)
  {
    var t := Shifted(q.shell);
    DiamondShifted(q.shell, t);
    DiamondOffPole(t);
    DiamondMaskCrossings(t);
    DiamondSeamCrossings(t);
    SplitByBothRules(q);
  }

  /** A ring off the pole that meets the mask once and crosses the seam once is split by either rule. */
  lemma SplitByBothRules(q: Polygon)
    requires !TouchesPole(Shifted(q.shell))
    requires |MaskCrossings(Shifted(q.shell))| == 1 && SeamCrossings(Shifted(q.shell)) == 1
    ensures Decide(q) == Some(q) && CorrectedDecide(q) == Some(q)
  {
  }

  /** The diamond in the shifted plane. */
  function Diamond(): seq<Coord> {
    [Coord(0.0, -20.0), Coord(-20.0, 0.0), Coord(0.0, 20.0), Coord(20.0, 0.0), Coord(0.0, -20.0)]
  }

  /** A segment leaving the y axis meets it first at its start. */
  lemma AxisStart(a: Coord, b: Coord)
    requires a.x == 0.0 && b.x != 0.0
    ensures Lerp(a, b, (0.0 - a.x) / (b.x - a.x)) == a
  {
    assert (0.0 - a.x) / (b.x - a.x) == 0.0;
  }

  /** A segment arriving at the y axis meets it at its end. */
  lemma AxisEnd(a: Coord, b: Coord)
    requires a.x != 0.0 && b.x == 0.0
    ensures Lerp(a, b, (0.0 - a.x) / (b.x - a.x)) == b
  {
    assert (0.0 - a.x) / (b.x - a.x) == 1.0;
  }

  /** What each of the diamond's four segments does at the mask and at the seam. */
  lemma DiamondSegments(t: seq<Coord>)
    requires t == Diamond()
    ensures CrossingOf(t[0], t[1]) == {} && !CrossesSeam(t[0], t[1])
    ensures CrossingOf(t[1], t[2]) == {t[2]} && !CrossesSeam(t[1], t[2])
    ensures CrossingOf(t[2], t[3]) == {t[2]} && CrossesSeam(t[2], t[3])
    ensures CrossingOf(t[3], t[4]) == {} && !CrossesSeam(t[3], t[4])
  {
    DiamondSegment0(t);
    DiamondSegment1(t);
    DiamondSegment2(t);
    DiamondSegment3(t);
  }

  lemma DiamondSegment0(t: seq<Coord>)
    requires t == Diamond()
    ensures CrossingOf(t[0], t[1]) == {} && !CrossesSeam(t[0], t[1])
  {
    AxisStart(t[0], t[1]);
  }

  lemma DiamondSegment1(t: seq<Coord>)
    requires t == Diamond()
    ensures CrossingOf(t[1], t[2]) == {t[2]} && !CrossesSeam(t[1], t[2])
  {
    AxisEnd(t[1], t[2]);
  }

  lemma DiamondSegment2(t: seq<Coord>)
    requires t == Diamond()
    ensures CrossingOf(t[2], t[3]) == {t[2]} && CrossesSeam(t[2], t[3])
  {
    AxisStart(t[2], t[3]);
  }

  lemma DiamondSegment3(t: seq<Coord>)
    requires t == Diamond()
    ensures CrossingOf(t[3], t[4]) == {} && !CrossesSeam(t[3], t[4])
  {
    AxisEnd(t[3], t[4]);
  }

  /** The projected ring shifted by a half turn is the diamond. */
  lemma DiamondShifted(s: seq<Coord>, t: seq<Coord>)
    requires s == [Coord(180.0, -20.0), Coord(160.0, 0.0), Coord(180.0, 20.0), Coord(-160.0, 0.0), Coord(180.0, -20.0)]
    requires t == Shifted(s)
    ensures t == Diamond()
  {
    assert t[0] == ShiftCoordinate(s[0]) && t[1] == ShiftCoordinate(s[1]) && t[2] == ShiftCoordinate(s[2]);
    assert t[3] == ShiftCoordinate(s[3]) && t[4] == ShiftCoordinate(s[4]);
  }

  /** A segment from a point of one axis to a point of the other, neither at the origin, misses the origin. */
  lemma AxisToAxis(a: Coord, b: Coord)
    requires (a.x == 0.0 && b.y == 0.0) || (a.y == 0.0 && b.x == 0.0)
    requires a != Origin && b != Origin
    ensures !SegmentContains(a, b, Origin)
  {
    if a.x == 0.0 {
      assert b.x * a.y != 0.0;
    } else {
      assert a.x * b.y != 0.0;
    }
  }

  lemma DiamondOffPole(t: seq<Coord>)
    requires t == Diamond()
    ensures !TouchesPole(t)
  {
    AxisToAxis(t[0], t[1]);
    AxisToAxis(t[1], t[2]);
    AxisToAxis(t[2], t[3]);
    AxisToAxis(t[3], t[4]);
    FiveOffPole(t);
  }

  /** A five-vertex ring none of whose vertices and segments meets the origin does not touch the pole. */
  lemma FiveOffPole(t: seq<Coord>)
    requires |t| == 5
    requires t[0] != Origin && t[1] != Origin && t[2] != Origin && t[3] != Origin && t[4] != Origin
    requires !SegmentContains(t[0], t[1], Origin) && !SegmentContains(t[1], t[2], Origin)
    requires !SegmentContains(t[2], t[3], Origin) && !SegmentContains(t[3], t[4], Origin)
    ensures !TouchesPole(t)
  {
    TouchesPoleStep(t, 0);
    TouchesPoleStep(t, 1);
    TouchesPoleStep(t, 2);
    TouchesPoleStep(t, 3);
    TouchesPoleStep(t, 4);
    assert t[..0] == [] && t[..5] == t;
  }

  lemma DiamondMaskCrossings(t: seq<Coord>)
    requires t == Diamond()
    ensures MaskCrossings(t) == {Coord(0.0, 20.0)}
  {
    DiamondSegments(t);
    FiveMaskCrossings(t);
  }

  lemma DiamondSeamCrossings(t: seq<Coord>)
    requires t == Diamond()
    ensures SeamCrossings(t) == 1
  {
    DiamondSegments(t);
    FiveSeamCrossings(t);
  }

  /** The mask crossings of a five-vertex ring whose second and third segments alone meet the mask, both at its third vertex. */
  lemma FiveMaskCrossings(t: seq<Coord>)
    requires |t| == 5
    requires CrossingOf(t[0], t[1]) == {} && CrossingOf(t[1], t[2]) == {t[2]}
    requires CrossingOf(t[2], t[3]) == {t[2]} && CrossingOf(t[3], t[4]) == {}
    ensures MaskCrossings(t) == {t[2]}
  {
    assert MaskCrossings(t[..1]) == {};
    MaskCrossingsStep(t, 1);
    assert MaskCrossings(t[..2]) == {};
    MaskCrossingsStep(t, 2);
    assert MaskCrossings(t[..3]) == {t[2]};
    MaskCrossingsStep(t, 3);
    assert MaskCrossings(t[..4]) == {t[2]};
    MaskCrossingsStep(t, 4);
    assert t[..5] == t;
  }

  /** The half-open count of a five-vertex ring is the number of its four segments that cross the seam. */
  lemma FiveSeamCrossings(t: seq<Coord>)
    requires |t| == 5
    ensures SeamCrossings(t) == (if CrossesSeam(t[0], t[1]) then 1 else 0) + (if CrossesSeam(t[1], t[2]) then 1 else 0)
      + (if CrossesSeam(t[2], t[3]) then 1 else 0) + (if CrossesSeam(t[3], t[4]) then 1 else 0)
  {
    SeamCrossingsStep(t, 1);
    SeamCrossingsStep(t, 2);
    SeamCrossingsStep(t, 3);
    SeamCrossingsStep(t, 4);
    assert t[..5] == t;
  }

  /** One more vertex: the half-open count grows by the new segment's crossing, if any. */
  lemma SeamCrossingsStep(t: seq<Coord>, i: nat)
    requires 1 <= i < |t|
    ensures SeamCrossings(t[..i + 1]) == SeamCrossings(t[..i]) + (if CrossesSeam(t[i - 1], t[i]) then 1 else 0)
  {
    assert t[..i + 1][..i] == t[..i];
  }

  /** No two different segments of the ring cross the mask at the same point. */
  ghost predicate DistinctCrossings(t: seq<Coord>) {
    forall i, j :: 1 <= i < j < |t| && MaskCrossing(t[i - 1], t[i]).Some? ==>
      MaskCrossing(t[i - 1], t[i]) != MaskCrossing(t[j - 1], t[j])
  }

  /** Off the y axis, a segment crosses the mask at one point exactly when it crosses the seam by the half-open rule. */
  lemma SegmentRulesAgree(a: Coord, b: Coord)
    requires a.x != 0.0 && b.x != 0.0
    ensures MaskCrossing(a, b).Some? <==> CrossesSeam(a, b)
  {
  }

  /** Both conditions hold of every prefix. */
  lemma OffAxisPrefix(t: seq<Coord>)
    requires |t| >= 1
    requires forall i :: 0 <= i < |t| ==> t[i].x != 0.0
    requires DistinctCrossings(t)
    ensures var u := t[..|t| - 1];
      (forall i :: 0 <= i < |u| ==> u[i].x != 0.0) && DistinctCrossings(u)
  {
    var u := t[..|t| - 1];
    assert forall i :: 0 <= i < |u| ==> u[i] == t[i];
  }

  /** The last segment's crossing point is not one of the earlier ones. */
  lemma FreshCrossing(t: seq<Coord>)
    requires |t| >= 2 && DistinctCrossings(t)
    requires MaskCrossing(t[|t| - 2], t[|t| - 1]).Some?
    ensures MaskCrossing(t[|t| - 2], t[|t| - 1]).value !in MaskCrossings(t[..|t| - 1])
  {
    var n := |t|;
    var u := t[..n - 1];
    var c := MaskCrossing(t[n - 2], t[n - 1]);
    MaskCrossingsMembers(u, c.value);
  }

  /** With no vertex on the y axis and no crossing point shared, the set of crossings has one point per crossing segment. */
  lemma {:induction false} CrossingCountsAgree(t: seq<Coord>)
    requires forall i :: 0 <= i < |t| ==> t[i].x != 0.0
    requires DistinctCrossings(t)
    ensures |MaskCrossings(t)| == SeamCrossings(t)
    decreases |t|
  {
    if |t| >= 2 {
      var n := |t|;
      OffAxisPrefix(t);
      CrossingCountsAgree(t[..n - 1]);
      SegmentRulesAgree(t[n - 2], t[n - 1]);
      if MaskCrossing(t[n - 2], t[n - 1]).Some? {
        FreshCrossing(t);
      }
    }
  }

  /**
   * Away from the tangent case the correction changes nothing: when no
   * shifted vertex lies on the y axis and no two segments cross the mask at
   * the same point, the corrected decision is the code's decision.
   */
  lemma CorrectedAgreesOffAxis(q: Polygon)
    requires forall i :: 0 <= i < |q.shell| ==> Shifted(q.shell)[i].x != 0.0
    requires DistinctCrossings(Shifted(q.shell))
    ensures CorrectedDecide(q) == Decide(q)
  {
    CrossingCountsAgree(Shifted(q.shell));
  }
}
