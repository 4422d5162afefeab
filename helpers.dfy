/** Numeric helpers of the renderer (HelperFunctions.h): the constants pi and
    infinity, the degree/radian conversions, C++'s double-to-int conversion,
    and the square root of the platform, which the model never computes but
    takes as a parameter wherever the source calls it. */
module Helpers {

  /** std::optional: a value or nothing. */
  datatype Option<T> = None | Some(value: T)

  /** A double restricted to what the model needs: a finite real or one of
      the two infinities. */
  datatype ExtReal = NegInf | Fin(value: real) | PosInf

  /** std::numeric_limits<double>::infinity() */
  const Infinity: ExtReal := PosInf

  const Pi: real := 3.1415926535897932385

  /** a <= b on the extended reals */
  predicate AtMost(a: ExtReal, b: ExtReal) {
    match (a, b)
    case (NegInf, _) => true
    case (_, PosInf) => true
    case (Fin(x), Fin(y)) => x <= y
    case _ => false
  }

  /** a < b on the extended reals */
  predicate Below(a: ExtReal, b: ExtReal) {
    AtMost(a, b) && a != b
  }

  lemma AtMostTransitive(a: ExtReal, b: ExtReal, c: ExtReal)
    requires AtMost(a, b) && AtMost(b, c)
    ensures AtMost(a, c)
  {
  }

  /** a - b as IEEE-754 computes it; None stands for the NaN of an infinity
      minus itself. */
  function Minus(a: ExtReal, b: ExtReal): (r: Option<ExtReal>)
    ensures a.Fin? && b.Fin? ==> r == Some(Fin(a.value - b.value))
    ensures r == None <==> a == b && !a.Fin?
    ensures r == Some(PosInf) <==> (a == PosInf && b != PosInf) || (a.Fin? && b == NegInf)
    ensures r == Some(NegInf) <==> (a == NegInf && b != NegInf) || (a.Fin? && b == PosInf)
  {
    match (a, b)
    case (Fin(x), Fin(y)) => Some(Fin(x - y))
    case (PosInf, PosInf) => None
    case (NegInf, NegInf) => None
    case (PosInf, _) => Some(PosInf)
    case (NegInf, _) => Some(NegInf)
    case (Fin(_), PosInf) => Some(NegInf)
    case (Fin(_), NegInf) => Some(PosInf)
  }

  function Abs(v: real): (r: real)
    ensures r >= 0.0 && (r == v || r == -v)
  {
    if v < 0.0 then -v else v
  }

  function Max(a: real, b: real): (r: real)
    ensures r >= a && r >= b && (r == a || r == b)
  {
    if a < b then b else a
  }

  function Min(a: real, b: real): (r: real)
    ensures r <= a && r <= b && (r == a || r == b)
  {
    if b < a then b else a
  }

  /** The conversion int(v) of C++: truncation toward zero. */
  function TruncateToInt(v: real): (n: int)
    ensures v >= 0.0 ==> 0 <= n && n as real <= v < n as real + 1.0
    ensures v <= 0.0 ==> n <= 0 && n as real - 1.0 < v <= n as real
  {
    if v >= 0.0 then v.Floor else -((-v).Floor)
  }

  /** The square root of the platform. The model takes sqrt as a parameter;
      properties that depend on its value assume this of it. */
  ghost predicate IsSqrt(sqrt: real -> real) {
    forall d :: d >= 0.0 ==> sqrt(d) >= 0.0 && sqrt(d) * sqrt(d) == d
  }

  function DegreesToRadians(degrees: real): (radians: real)
    ensures degrees == 180.0 ==> radians == Pi
    ensures degrees == 0.0 ==> radians == 0.0
    ensures degrees > 0.0 ==> radians > 0.0
  {
    (degrees * Pi) / 180.0
  }

  function RadiansToDegrees(radians: real): (degrees: real)
    ensures radians == Pi ==> degrees == 180.0
    ensures radians > 0.0 ==> degrees > 0.0
  {
    (180.0 * radians) / Pi
  }

  lemma DegreesRoundTrip(degrees: real)
    ensures RadiansToDegrees(DegreesToRadians(degrees)) == degrees
  {
  }

  lemma RadiansRoundTrip(radians: real)
    ensures DegreesToRadians(RadiansToDegrees(radians)) == radians
  {
  }

  lemma DegreesToRadiansIncreasing(a: real, b: real)
    requires a < b
    ensures DegreesToRadians(a) < DegreesToRadians(b)
  {
  }
}
