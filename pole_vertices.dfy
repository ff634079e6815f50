/**
 * Pole-vertex insertion. After the cut, the pole is a single geographic point
 * that shows up in the plane as (-180, 0) or (180, 0) on the cut line; every
 * ring segment that passes through one of those points gets an explicit vertex
 * there. Exterior rings and line strings get this treatment; holes are copied
 * as they are.
 */
module PoleVertices {
  import opened Geometries

  /** The pole as it appears on the western side of the cut. */
  const WestPole := Coord(-180.0, 0.0)

  /** The pole as it appears on the eastern side of the cut. */
  const EastPole := Coord(180.0, 0.0)

  /**
   * What goes between consecutive coordinates prev and cur: (-180, 0) when
   * their segment contains it, otherwise (180, 0) when it contains that one,
   * otherwise nothing.
   */
  function PoleBetween(prev: Coord, cur: Coord): seq<Coord> {
    if SegmentContains(prev, cur, WestPole) then [WestPole]
    else if SegmentContains(prev, cur, EastPole) then [EastPole]
    else []
  }

  /**
   * The coordinates of a line with pole vertices: the first coordinate, then
   * for each later one the pole vertex between it and its predecessor, if
   * any, and the coordinate itself.
   */
  function WithPoleVertices(s: seq<Coord>): seq<Coord>
    decreases |s|
  {
    if |s| <= 1 then s
    else WithPoleVertices(s[..|s| - 1]) + PoleBetween(s[|s| - 2], s[|s| - 1]) + [s[|s| - 1]]
  }

  /** At most one vertex is added per segment: n coordinates become between n and 2n - 1. */
  lemma {:induction false} WithPoleVerticesLength(s: seq<Coord>)
    ensures |s| <= |WithPoleVertices(s)|
    ensures |s| > 0 ==> |WithPoleVertices(s)| <= 2 * |s| - 1
  {
    if |s| > 1 {
      WithPoleVerticesLength(s[..|s| - 1]);
    }
  }

  /** The first and the last coordinate are kept at the two ends. */
  lemma {:induction false} WithPoleVerticesEnds(s: seq<Coord>)
    requires |s| > 0
    ensures |WithPoleVertices(s)| > 0
    ensures WithPoleVertices(s)[0] == s[0]
    ensures WithPoleVertices(s)[|WithPoleVertices(s)| - 1] == s[|s| - 1]
  {
    if |s| > 1 {
      WithPoleVerticesEnds(s[..|s| - 1]);
    }
  }

  /** Inserting pole vertices into a prefix of a line gives a prefix of the result. */
  lemma {:induction false} WithPoleVerticesPrefix(s: seq<Coord>, m: nat)
    requires m <= |s|
    ensures WithPoleVertices(s[..m]) <= WithPoleVertices(s)
    decreases |s|
  {
    if m < |s| {
      var t := s[..|s| - 1];
      assert t[..m] == s[..m];
      WithPoleVerticesPrefix(t, m);
    } else {
      assert s[..m] == s;
    }
  }

  /** Where the i-th input coordinate lands in the output. */
  function Position(s: seq<Coord>, i: nat): int
    requires i < |s|
  {
    |WithPoleVertices(s[..i + 1])| - 1
  }

  /**
   * The output keeps every input coordinate, in its own order: the i-th
   * sits at Position(s, i), the first at the start and the last at the end.
   */
  lemma WithPoleVerticesKeepsInput(s: seq<Coord>, i: nat)
    requires i < |s|
    ensures 0 <= Position(s, i) < |WithPoleVertices(s)|
    ensures WithPoleVertices(s)[Position(s, i)] == s[i]
    ensures i == 0 ==> Position(s, i) == 0
    ensures i == |s| - 1 ==> Position(s, i) == |WithPoleVertices(s)| - 1
  {
    PositionHolds(s, i);
    if i == |s| - 1 {
      assert s[..i + 1] == s;
    }
  }

  /** The i-th input coordinate is at Position(s, i). */
  lemma PositionHolds(s: seq<Coord>, i: nat)
    requires i < |s|
    ensures 0 <= Position(s, i) < |WithPoleVertices(s)| && WithPoleVertices(s)[Position(s, i)] == s[i]
  {
    var u := s[..i + 1];
    WithPoleVerticesPrefix(s, i + 1);
    WithPoleVerticesEnds(u);
    assert u[i] == s[i];
    PrefixAt(WithPoleVertices(u), WithPoleVertices(s), |WithPoleVertices(u)| - 1);
  }

  /** A prefix agrees with the whole sequence at each of its positions. */
  lemma PrefixAt<T>(pre: seq<T>, r: seq<T>, j: nat)
    requires pre <= r && j < |pre|
    ensures j < |r| && r[j] == pre[j]
  {
  }

  /**
   * Between the i-th and the (i+1)-th input coordinate the output holds
   * exactly the pole vertex their segment calls for, if any.
   */
  lemma WithPoleVerticesBetween(s: seq<Coord>, i: nat)
    requires i + 1 < |s|
    ensures 0 <= Position(s, i) < Position(s, i + 1) < |WithPoleVertices(s)|
    ensures Position(s, i + 1) == Position(s, i) + 1 + |PoleBetween(s[i], s[i + 1])|
    ensures WithPoleVertices(s)[Position(s, i) + 1 .. Position(s, i + 1)] == PoleBetween(s[i], s[i + 1])
  {
    var u, t := s[..i + 1], s[..i + 2];
    assert t[..|t| - 1] == u && t[|t| - 2] == s[i] && t[|t| - 1] == s[i + 1];
    WithPoleVerticesEnds(u);
    WithPoleVerticesPrefix(s, i + 2);
    SliceAfterPrefix(WithPoleVertices(u), PoleBetween(s[i], s[i + 1]), s[i + 1], WithPoleVertices(s));
  }

  /** In a sequence that starts with pre + between + [last], between follows pre. */
  lemma SliceAfterPrefix<T>(pre: seq<T>, between: seq<T>, last: T, r: seq<T>)
    requires pre + between + [last] <= r
    ensures r[|pre| .. |pre| + |between|] == between
  {
    var w := pre + between + [last];
    assert r[|pre| .. |pre| + |between|] == w[|pre| .. |pre| + |between|];
  }

  /** A ring JTS accepts (empty, or closed with at least four points) stays one it accepts. */
  lemma WithPoleVerticesKeepsValidRing(s: seq<Coord>)
    requires ValidRing(s)
    ensures ValidRing(WithPoleVertices(s))
  {
    if |s| > 0 {
      WithPoleVerticesLength(s);
      WithPoleVerticesEnds(s);
    }
  }

  /**
   * addPolarCoordinateCoordinateArray: builds a linked list, testing each
   * coordinate against the list's last element, which is always the previous
   * input coordinate.
   */
  method AddPolarCoordinateCoordinateArray(s: seq<Coord>) returns (r: seq<Coord>)
    ensures r == WithPoleVertices(s)
  {
    var coordinates: seq<Coord> := [];
    for n := 0 to |s|
      invariant coordinates == WithPoleVertices(s[..n])
      invariant coordinates == [] <==> n == 0
      invariant n > 0 ==> coordinates[|coordinates| - 1] == s[n - 1]
    {
      var coordinate := s[n];
      assert s[..n + 1][..n] == s[..n];
      if coordinates == [] {
        coordinates := coordinates + [coordinate];
      } else {
        var last := coordinates[|coordinates| - 1];
        if SegmentContains(last, coordinate, WestPole) {
          coordinates := coordinates + [WestPole];
        } else if SegmentContains(last, coordinate, EastPole) {
          coordinates := coordinates + [EastPole];
        }
        coordinates := coordinates + [coordinate];
      }
    }
    assert s[..|s|] == s;
    r := coordinates;
  }

  /** toRing: an index loop copying a hole's coordinates unchanged. */
  method ToRing(s: seq<Coord>) returns (r: seq<Coord>)
    ensures r == s
  {
    var coordinates := new Coord[|s|];
    for n := 0 to |s|
      invariant coordinates[..n] == s[..n]
    {
      coordinates[n] := s[n];
    }
    r := coordinates[..];
  }

  /** The polygon addPolarCoordinatePolygon builds: pole vertices on the exterior only. */
  function PolygonWithPoleVertices(p: Polygon): Polygon {
    Rings(WithPoleVertices(p.shell), p.holes)
  }

  /**
   * addPolarCoordinatePolygon: pole vertices go into the exterior ring; every
   * hole is copied coordinate for coordinate, and there are as many holes.
   */
  method AddPolarCoordinatePolygon(p: Polygon) returns (r: Polygon)
    ensures r == PolygonWithPoleVertices(p)
  {
    var ring := AddPolarCoordinateCoordinateArray(p.shell);
    var holes := new seq<Coord>[|p.holes|];
    for n := 0 to |p.holes|
      invariant forall j :: 0 <= j < n ==> holes[j] == p.holes[j]
    {
      holes[n] := ToRing(p.holes[n]);
    }
    assert holes[..] == p.holes;
    r := Rings(ring, holes[..]);
  }
}
