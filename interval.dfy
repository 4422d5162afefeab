/** The closed range [min, max] of ray parameters (Interval.h). Bounds may be
    infinite; nothing mutates an interval after construction. */
module Intervals {
  import opened Helpers

  datatype Interval = Interval(min: ExtReal, max: ExtReal) {

    /** max - min; None when both bounds are the same infinity (NaN). */
    function Size(): (s: Option<ExtReal>)
      ensures min.Fin? && max.Fin? ==> s == Some(Fin(max.value - min.value))
      ensures s == None <==> min == max && !min.Fin?
      ensures this == EmptyInterval() ==> s == Some(NegInf)
      ensures this == InfiniteInterval() ==> s == Some(PosInf)
    {
      Minus(max, min)
    }

    /** min <= v <= max */
    predicate Contains(v: real)
      ensures Contains(v) <==>
        min != PosInf && max != NegInf &&
        (min.Fin? ==> min.value <= v) && (max.Fin? ==> v <= max.value)
    {
      AtMost(min, Fin(v)) && AtMost(Fin(v), max)
    }

    /** min < v < max */
    predicate Surrounds(v: real)
      ensures Surrounds(v) ==> Contains(v)
      ensures Surrounds(v) <==>
        min != PosInf && max != NegInf &&
        (min.Fin? ==> min.value < v) && (max.Fin? ==> v < max.value)
    {
      Below(min, Fin(v)) && Below(Fin(v), max)
    }

    /** The member clampValue: v itself when it is contained, otherwise the
        bound on the side of v. */
    function ClampValue(v: real): (r: ExtReal)
      ensures Contains(v) ==> r == Fin(v)
      ensures !Contains(v) ==> r == min || r == max
      ensures AtMost(min, max) ==> AtMost(min, r) && AtMost(r, max)
    {
      if Contains(v) then Fin(v)
      else if Below(Fin(v), min) then min
      else max
    }
  }

  /** The static clampValueToInterval: the same rule, with the interval passed in. */
  function ClampValueToInterval(v: real, interval: Interval): (r: ExtReal)
    ensures r == interval.ClampValue(v)
  {
    if interval.Contains(v) then Fin(v)
    else if Below(Fin(v), interval.min) then interval.min
    else interval.max
  }

  /** Interval::emptyInterval = (+infinity, -infinity) */
  function EmptyInterval(): (i: Interval)
    ensures forall v: real :: !i.Contains(v)
  {
    Interval(PosInf, NegInf)
  }

  /** Interval::infiniteInterval = (-infinity, +infinity) */
  function InfiniteInterval(): (i: Interval)
    ensures forall v: real :: i.Contains(v) && i.Surrounds(v)
  {
    Interval(NegInf, PosInf)
  }

  /** Clamping into a well-ordered interval is idempotent: a finite clamped
      value clamps to itself. */
  lemma ClampIdempotent(i: Interval, v: real)
    requires AtMost(i.min, i.max)
    ensures i.ClampValue(v).Fin? ==> i.ClampValue(i.ClampValue(v).value) == i.ClampValue(v)
  {
    var r := i.ClampValue(v);
    if r.Fin? {
      assert AtMost(i.min, r) && AtMost(r, i.max);
      assert i.Contains(r.value);
    }
  }
}
