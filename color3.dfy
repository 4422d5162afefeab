/** RGB colours (Color3.h). The arithmetic operators return new values; the
    compound assignments += and /= update a colour variable in place and are
    modelled by the class MutableColor3. */
module Colors {
  import opened Helpers

  datatype Color3 = Color3(x: real, y: real, z: real) {

    /** r(): the red channel as the 8-bit value written to the image. */
    function R(): (n: int)
      ensures 0.0 <= x <= 1.0 ==> 0 <= n <= 255
    {
      Channel(x)
    }

    function G(): (n: int)
      ensures 0.0 <= y <= 1.0 ==> 0 <= n <= 255
    {
      Channel(y)
    }

    function B(): (n: int)
      ensures 0.0 <= z <= 1.0 ==> 0 <= n <= 255
    {
      Channel(z)
    }

    /** colour * scale (and scale * colour) */
    function Scale(scale: real): Color3 {
      Color3(scale * x, scale * y, scale * z)
    }

    /** colour * colour, component by component */
    function Mul(other: Color3): Color3 {
      Color3(x * other.x, y * other.y, z * other.z)
    }

    function Add(other: Color3): Color3 {
      Color3(x + other.x, y + other.y, z + other.z)
    }

    /** correctedAverage(n): each component divided by the number of samples,
        then gamma-corrected by a square root. The source computes 1.0 / n,
        which for n == 0 is infinite and makes every component NaN. */
    function CorrectedAverage(samplesPerPixel: int, sqrt: real -> real): Color3
      requires samplesPerPixel != 0
    {
      var scale := 1.0 / samplesPerPixel as real;
      Color3(sqrt(scale * x), sqrt(scale * y), sqrt(scale * z))
    }

    predicate NonNegative() {
      x >= 0.0 && y >= 0.0 && z >= 0.0
    }
  }

  /** int(255.999 * c), the conversion shared by r(), g() and b(). */
  function Channel(c: real): (n: int)
    ensures 0.0 <= c <= 1.0 ==> 0 <= n <= 255
    ensures c == 1.0 ==> n == 255
    ensures c == 0.0 ==> n == 0
  {
    TruncateToInt(255.999 * c)
  }

  /** Color3() = default: black. */
  function Black(): Color3 {
    Color3(0.0, 0.0, 0.0)
  }

  /** One component of correctedAverage: sqrt(c / n) squared and multiplied
      by n gives c back, and it is never negative. */
  lemma AverageComponent(c: real, n: int, sqrt: real -> real)
    requires n != 0
    ensures IsSqrt(sqrt) && n > 0 && c >= 0.0 ==>
      sqrt((1.0 / n as real) * c) >= 0.0 &&
      sqrt((1.0 / n as real) * c) * sqrt((1.0 / n as real) * c) * n as real == c
  {
    if IsSqrt(sqrt) && n > 0 && c >= 0.0 {
      var d := (1.0 / n as real) * c;
      assert d >= 0.0;
      var s := sqrt(d);
      assert s * s == d;
      calc {
        s * s * n as real;
        == d * n as real;
        == (1.0 / n as real) * c * n as real;
        == c;
      }
    }
  }

  /** correctedAverage(n) is the square root of each component over n. */
  lemma AverageComponents(a: Color3, n: int, sqrt: real -> real)
    requires n > 0
    ensures a.CorrectedAverage(n, sqrt).x == sqrt((1.0 / n as real) * a.x)
    ensures a.CorrectedAverage(n, sqrt).y == sqrt((1.0 / n as real) * a.y)
    ensures a.CorrectedAverage(n, sqrt).z == sqrt((1.0 / n as real) * a.z)
  {
    var r := a.CorrectedAverage(n, sqrt);
    assert r.x == sqrt((1.0 / n as real) * a.x);
    assert r.y == sqrt((1.0 / n as real) * a.y);
    assert r.z == sqrt((1.0 / n as real) * a.z);
  }

  /** correctedAverage undoes the accumulation: with a true square root,
      each component of the result squared and multiplied by the number of
      samples gives back the accumulated component, and none is negative. */
  lemma CorrectedAverageInverts(c: Color3, samplesPerPixel: int, sqrt: real -> real)
    requires IsSqrt(sqrt) && samplesPerPixel > 0 && c.NonNegative()
    ensures var r := c.CorrectedAverage(samplesPerPixel, sqrt);
      r.NonNegative() &&
      r.x * r.x * samplesPerPixel as real == c.x &&
      r.y * r.y * samplesPerPixel as real == c.y &&
      r.z * r.z * samplesPerPixel as real == c.z
  {
    AverageComponent(c.x, samplesPerPixel, sqrt);
    AverageComponent(c.y, samplesPerPixel, sqrt);
    AverageComponent(c.z, samplesPerPixel, sqrt);
  }

  lemma AddCommutative(a: Color3, b: Color3)
    ensures a.Add(b) == b.Add(a)
  {
  }

  lemma MulCommutative(a: Color3, b: Color3)
    ensures a.Mul(b) == b.Mul(a)
  {
  }

  /** Black is the identity of + and absorbs colour * colour. */
  lemma BlackIdentity(c: Color3)
    ensures c.Add(Black()) == c && Black().Add(c) == c
    ensures c.Mul(Black()) == Black()
  {
  }

  /** Non-negative colours stay non-negative under +, * and scaling by a
      non-negative factor. */
  lemma NonNegativeClosed(a: Color3, b: Color3, s: real)
    requires a.NonNegative() && b.NonNegative() && s >= 0.0
    ensures a.Add(b).NonNegative()
    ensures a.Mul(b).NonNegative()
    ensures a.Scale(s).NonNegative()
  {
  }

  /** A colour variable updated in place by += and /=. */
  class MutableColor3 {
    var x: real
    var y: real
    var z: real

    function Value(): Color3
      reads this
    {
      Color3(x, y, z)
    }

    /** Color3() = default */
    constructor ()
      ensures Value() == Black()
    {
      x, y, z := 0.0, 0.0, 0.0;
    }

    constructor FromValue(c: Color3)
      ensures Value() == c
    {
      x, y, z := c.x, c.y, c.z;
    }

    /** operator+= */
    method AddAssign(other: Color3)
      modifies this
      ensures Value() == old(Value()).Add(other)
    {
      x := x + other.x;
      y := y + other.y;
      z := z + other.z;
    }

    /** operator/=: each component divided by scale. Dividing by zero gives
        infinities or NaN in the source, which the model excludes. */
    method DivAssign(scale: real)
      requires scale != 0.0
      modifies this
      ensures Value() == Color3(old(x) / scale, old(y) / scale, old(z) / scale)
      ensures Value().Scale(scale) == old(Value())
    {
      x := x / scale;
      y := y / scale;
      z := z / scale;
    }
  }
}
