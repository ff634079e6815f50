/**
 * The floating-point primitives that the polar processor calls, and the two
 * angle wraps it writes out by hand.
 *
 * `Math.cos`, `Math.sin`, `Math.atan2`, `Math.sqrt`, `Math.toRadians`,
 * `Math.toDegrees` and `Precision.round(v, 11)` are not modelled: they are the
 * fields of a `Kernel` value that every projection takes as a parameter, and
 * `Valid` records the only facts about them that the proofs use.
 */
module Numerics {

  datatype Kernel = Kernel(
    cosDeg: real -> real,            // Math.cos(Math.toRadians(a))
    sinDeg: real -> real,            // Math.sin(Math.toRadians(a))
    atan2Deg: (real, real) -> real,  // Math.toDegrees(Math.atan2(y, x))
    sqrt: real -> real,              // Math.sqrt
    round11: real -> real)           // Precision.round(v, 11)

  /**
   * Range facts of the primitives: cosine and sine lie in [-1, 1], atan2 in
   * degrees in [-180, 180], a square root is never negative and the root of 0
   * is 0, and rounding to 11 decimals is monotone and leaves the whole numbers
   * the proofs meet (0, 90, -90, 180, -180) unchanged.
   */
  ghost predicate Valid(k: Kernel) {
    && (forall a :: -1.0 <= k.cosDeg(a) <= 1.0)
    && (forall a :: -1.0 <= k.sinDeg(a) <= 1.0)
    && (forall y, x :: -180.0 <= k.atan2Deg(y, x) <= 180.0)
    && (forall s :: 0.0 <= s ==> 0.0 <= k.sqrt(s))
    && k.sqrt(0.0) == 0.0
    && (forall a, b :: a <= b ==> k.round11(a) <= k.round11(b))
    && k.round11(0.0) == 0.0
    && k.round11(90.0) == 90.0 && k.round11(-90.0) == -90.0
    && k.round11(180.0) == 180.0 && k.round11(-180.0) == -180.0
  }

  function Abs(v: real): real { if v < 0.0 then -v else v }

  /**
   * `if (v > 180) v = v - 360`: the wrap applied after each `+90` or `+180`
   * shift. It moves v by zero or one full turn, and anything up to one turn
   * above the range lands in (-180, 180].
   */
  function Fold180(v: real): (r: real)
    ensures r == v || r == v - 360.0
    ensures -180.0 < v <= 540.0 ==> -180.0 < r <= 180.0
    ensures -180.0 < v <= 180.0 ==> r == v
  {
    if v > 180.0 then v - 360.0 else v
  }

  /**
   * `if (a > 180) a -= 360; if (a < -180) a += 360`: the two-sided wrap of the
   * inverse projection. It moves a by at most one full turn, and anything
   * within one turn of the range lands in [-180, 180].
   */
  function FoldAngle(a: real): (r: real)
    ensures r == a || r == a - 360.0 || r == a + 360.0
    ensures -540.0 <= a <= 540.0 ==> -180.0 <= r <= 180.0
    ensures -180.0 <= a <= 180.0 ==> r == a
  {
    var a1 := if a > 180.0 then a - 360.0 else a;
    if a1 < -180.0 then a1 + 360.0 else a1
  }
}
