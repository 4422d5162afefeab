/** Three-component vectors and points (Vector3.h). The binary operators,
    dot, cross, nearZero and the mirror reflection are expressions over an
    immutable value; the compound assignments +=, *= and /= update a
    variable in place and are modelled by the class MutableVector3. */
module Vectors {
  import opened Helpers

  /** An axis index 0, 1 or 2, as used by operator[] in AABB.h and BVHNode.h. */
  type Axis = a: int | 0 <= a < 3

  datatype Vector3 = Vector3(x: real, y: real, z: real) {

    /** Component selection v[axis]: x, y, z for 0, 1, 2. */
    function At(axis: Axis): real {
      if axis == 0 then x else if axis == 1 then y else z
    }

    /** Unary minus AS WRITTEN at Vector3.h:20: it returns a copy of the
        vector, unchanged. */
    function NegAsWritten(): (r: Vector3)
      ensures r.x == x && r.y == y && r.z == z
    {
      this
    }

    /** Unary minus as evidently intended: component-wise negation. The rest
        of the model uses this one. */
    function Neg(): (r: Vector3)
      ensures r.Add(this) == Zero()
      ensures r.Dot(this) == -LengthSquared()
    {
      Vector3(-x, -y, -z)
    }

    function Add(other: Vector3): Vector3 {
      Vector3(x + other.x, y + other.y, z + other.z)
    }

    function Sub(other: Vector3): (r: Vector3)
      ensures r.Add(other) == this
    {
      Vector3(x - other.x, y - other.y, z - other.z)
    }

    /** v * scale (and scale * v) */
    function Scale(scale: real): Vector3 {
      Vector3(scale * x, scale * y, scale * z)
    }

    /** v / scale, computed as v * (1 / scale) */
    function Div(scale: real): (r: Vector3)
      requires scale != 0.0
      ensures r.Scale(scale) == this
    {
      Scale(1.0 / scale)
    }

    function Dot(other: Vector3): real {
      (x * other.x) + (y * other.y) + (z * other.z)
    }

    function Cross(other: Vector3): Vector3 {
      Vector3((y * other.z) - (z * other.y),
              (z * other.x) - (x * other.z),
              (x * other.y) - (y * other.x))
    }

    function LengthSquared(): (r: real)
      ensures r >= 0.0
      ensures x * x <= r && y * y <= r && z * z <= r
    {
      x * x + y * y + z * z
    }

    /** Every component has absolute value below epsilon. */
    predicate NearZero(epsilon: real)
      ensures NearZero(epsilon) ==> LengthSquared() < 3.0 * epsilon * epsilon
      ensures epsilon > 0.0 && LengthSquared() < epsilon * epsilon ==> NearZero(epsilon)
    {
      var near := Abs(x) < epsilon && Abs(y) < epsilon && Abs(z) < epsilon;
      NearZeroBounds(this, epsilon);
      near
    }

    /** reflectionAboutNormalVector: self - n * (2 * self.dot(n)) */
    function Reflect(normal: Vector3): Vector3 {
      Sub(normal.Scale(2.0 * Dot(normal)))
    }

    /** v / |v|, with the square root passed in. For the zero vector the
        source divides 0 by 0; the model returns the zero vector there. */
    function UnitVector(sqrt: real -> real): (r: Vector3)
      ensures IsSqrt(sqrt) ==> r.LengthSquared() <= 1.0
      ensures IsSqrt(sqrt) && LengthSquared() != 0.0 ==> r.LengthSquared() == 1.0
    {
      var len := sqrt(LengthSquared());
      if len == 0.0 then this
      else
        var r := Vector3(x / len, y / len, z / len);
        assert r.x * len == x && r.y * len == y && r.z * len == z;
        UnitLength(this, len, r);
        r
    }
  }

  /** The default epsilon of nearZero. */
  const NearZeroEpsilon: real := 0.00000001

  function Zero(): Vector3 {
    Vector3(0.0, 0.0, 0.0)
  }

  lemma SquarePositive(c: real)
    ensures c * c >= 0.0
    ensures c != 0.0 ==> c * c > 0.0
    ensures c == 0.0 ==> c * c == 0.0
  {
    if c > 0.0 {
      MulStrict(0.0, c, c);
    } else if c < 0.0 {
      MulStrict(0.0, -c, -c);
      calc {
        c * c;
        == (-c) * (-c);
        > 0.0 * (-c);
        == 0.0;
      }
    }
  }

  /** Multiplication by a non-negative factor keeps an order. */
  lemma MulMonotone(a: real, b: real, c: real)
    requires a <= b && c >= 0.0
    ensures a * c <= b * c
  {
    assert (b - a) * c >= 0.0;
  }

  lemma MulStrict(a: real, b: real, c: real)
    requires a < b && c > 0.0
    ensures a * c < b * c
  {
    assert (b - a) * c > 0.0;
  }

  lemma SquareBelow(c: real, epsilon: real)
    ensures Abs(c) < epsilon ==> c * c < epsilon * epsilon
    ensures epsilon > 0.0 && c * c < epsilon * epsilon ==> Abs(c) < epsilon
  {
    var a := Abs(c);
    assert a * a == c * c;
    if a < epsilon {
      MulMonotone(a, epsilon, a);
      MulStrict(a, epsilon, epsilon);
      calc {
        c * c;
        == a * a;
        <= epsilon * a;
        == a * epsilon;
        < epsilon * epsilon;
      }
    } else if epsilon > 0.0 {
      MulMonotone(epsilon, a, a);
      MulMonotone(epsilon, a, epsilon);
      calc {
        c * c;
        == a * a;
        >= epsilon * a;
        == a * epsilon;
        >= epsilon * epsilon;
      }
    }
  }

  lemma NearZeroBounds(v: Vector3, epsilon: real)
    ensures Abs(v.x) < epsilon && Abs(v.y) < epsilon && Abs(v.z) < epsilon ==>
      v.LengthSquared() < 3.0 * epsilon * epsilon
    ensures epsilon > 0.0 && v.LengthSquared() < epsilon * epsilon ==>
      Abs(v.x) < epsilon && Abs(v.y) < epsilon && Abs(v.z) < epsilon
  {
    SquareBelow(v.x, epsilon);
    SquareBelow(v.y, epsilon);
    SquareBelow(v.z, epsilon);
    var _ := v.LengthSquared();
    if Abs(v.x) < epsilon && Abs(v.y) < epsilon && Abs(v.z) < epsilon {
      calc {
        v.LengthSquared();
        == v.x * v.x + v.y * v.y + v.z * v.z;
        < epsilon * epsilon + epsilon * epsilon + epsilon * epsilon;
        == 3.0 * epsilon * epsilon;
      }
    }
  }

  lemma MulCancel(a: real, b: real, c: real)
    requires a * c == b * c && c != 0.0
    ensures a == b
  {
    assert (a - b) * c == 0.0;
  }

  lemma ScaledSquare(r: real, len: real, v: real)
    requires r * len == v
    ensures r * r * len * len == v * v
  {
    calc {
      r * r * len * len;
      == (r * len) * (r * len);
      == v * v;
    }
  }

  /** Dividing each component of a vector by its length gives components
      whose squares sum to one, stated on the bare components. */
  lemma UnitLengthOfComponents(rx: real, ry: real, rz: real, vx: real, vy: real, vz: real, len: real)
    requires len != 0.0
    requires rx * len == vx && ry * len == vy && rz * len == vz
    requires len * len == vx * vx + vy * vy + vz * vz
    ensures rx * rx + ry * ry + rz * rz == 1.0
  {
    var s := rx * rx + ry * ry + rz * rz;
    ScaledSquare(rx, len, vx);
    ScaledSquare(ry, len, vy);
    ScaledSquare(rz, len, vz);
    calc {
      (s * len) * len;
      == rx * rx * len * len + ry * ry * len * len + rz * rz * len * len;
      == vx * vx + vy * vy + vz * vz;
      == (1.0 * len) * len;
    }
    MulCancel(s * len, 1.0 * len, len);
    MulCancel(s, 1.0, len);
  }

  /** A vector r with r * len == v componentwise, where len * len is the
      squared length of v, has unit squared length. */
  lemma UnitLength(v: Vector3, len: real, r: Vector3)
    requires len != 0.0 && r.x * len == v.x && r.y * len == v.y && r.z * len == v.z
    ensures len * len == v.LengthSquared() ==> r.LengthSquared() == 1.0
  {
    if len * len == v.LengthSquared() {
      UnitLengthOfComponents(r.x, r.y, r.z, v.x, v.y, v.z, len);
    }
  }

  /** An in-place vector variable, for the compound assignments of Vector3. */
  class MutableVector3 {
    var x: real
    var y: real
    var z: real

    function Value(): Vector3
      reads this
    {
      Vector3(x, y, z)
    }

    /** Vector3() = default: the zero vector. */
    constructor ()
      ensures Value() == Zero()
    {
      x, y, z := 0.0, 0.0, 0.0;
    }

    constructor FromValue(v: Vector3)
      ensures Value() == v
    {
      x, y, z := v.x, v.y, v.z;
    }

    /** operator+= */
    method AddAssign(inVec: Vector3)
      modifies this
      ensures Value() == old(Value()).Add(inVec)
    {
      x := x + inVec.x;
      y := y + inVec.y;
      z := z + inVec.z;
    }

    /** operator*= */
    method ScaleAssign(scale: real)
      modifies this
      ensures Value() == old(Value()).Scale(scale)
    {
      x := x * scale;
      y := y * scale;
      z := z * scale;
    }

    /** operator/=, which the source writes as *this *= (1 / scale) */
    method DivAssign(scale: real)
      requires scale != 0.0
      modifies this
      ensures Value() == old(Value()).Scale(1.0 / scale)
      ensures Value() == old(Value()).Div(scale)
    {
      ScaleAssign(1.0 / scale);
    }
  }

  lemma DotCommutative(a: Vector3, b: Vector3)
    ensures a.Dot(b) == b.Dot(a)
  {
  }

  lemma DotBilinear(a: Vector3, b: Vector3, c: Vector3, s: real)
    ensures a.Add(b).Dot(c) == a.Dot(c) + b.Dot(c)
    ensures a.Scale(s).Dot(c) == s * a.Dot(c)
    ensures c.Dot(a.Sub(b)) == c.Dot(a) - c.Dot(b)
  {
  }

  lemma CrossOrthogonal(a: Vector3, b: Vector3)
    ensures a.Dot(a.Cross(b)) == 0.0
    ensures b.Dot(a.Cross(b)) == 0.0
  {
  }

  /** The unary minus of the source leaves every vector unchanged. */
  lemma NegAsWrittenIsIdentity(v: Vector3)
    ensures v.NegAsWritten() == v
  {
  }

  /** A concrete vector on which the written and the intended unary minus differ. */
  lemma NegAsWrittenDiffers()
    ensures Vector3(1.0, 0.0, 0.0).NegAsWritten() != Vector3(1.0, 0.0, 0.0).Neg()
  {
  }

  lemma NegInvolution(v: Vector3)
    ensures v.Neg().Neg() == v
  {
  }

  /** For a unit normal the reflected vector has the opposite component along it. */
  lemma ReflectFlipsNormalComponent(v: Vector3, n: Vector3)
    requires n.LengthSquared() == 1.0
    ensures v.Reflect(n).Dot(n) == -v.Dot(n)
  {
    var k := 2.0 * v.Dot(n);
    calc {
      v.Reflect(n).Dot(n);
      v.Sub(n.Scale(k)).Dot(n);
      { DotBilinear(v, n.Scale(k), n, k); DotCommutative(v.Sub(n.Scale(k)), n); DotCommutative(v, n); DotCommutative(n.Scale(k), n); }
      v.Dot(n) - n.Scale(k).Dot(n);
      { DotBilinear(n, n, n, k); }
      v.Dot(n) - k * n.Dot(n);
      -v.Dot(n);
    }
  }

  /** Reflecting twice about a unit normal gives back the original vector. */
  lemma ReflectTwice(v: Vector3, n: Vector3)
    requires n.LengthSquared() == 1.0
    ensures v.Reflect(n).Reflect(n) == v
  {
    var r := v.Reflect(n);
    ReflectFlipsNormalComponent(v, n);
    var k := 2.0 * v.Dot(n);
    assert r == v.Sub(n.Scale(k));
    assert r.Reflect(n) == r.Sub(n.Scale(-k));
  }

  lemma SquareOfDifference(p: real, q: real)
    ensures (p - q) * (p - q) == p * p - 2.0 * (p * q) + q * q
  {
  }

  lemma NormSquaredOfDifference(a: Vector3, b: Vector3)
    ensures a.Sub(b).LengthSquared() == a.LengthSquared() - 2.0 * a.Dot(b) + b.LengthSquared()
  {
    SquareOfDifference(a.x, b.x);
    SquareOfDifference(a.y, b.y);
    SquareOfDifference(a.z, b.z);
    calc {
      a.Sub(b).LengthSquared();
      == (a.x - b.x) * (a.x - b.x) + (a.y - b.y) * (a.y - b.y) + (a.z - b.z) * (a.z - b.z);
      == a.LengthSquared() - 2.0 * a.Dot(b) + b.LengthSquared();
    }
  }

  lemma NormSquaredOfScaled(n: Vector3, k: real)
    ensures n.Scale(k).LengthSquared() == k * k * n.LengthSquared()
  {
  }

  /** Reflection about a unit normal preserves length. */
  lemma ReflectPreservesLength(v: Vector3, n: Vector3)
    requires n.LengthSquared() == 1.0
    ensures v.Reflect(n).LengthSquared() == v.LengthSquared()
  {
    var d := v.Dot(n);
    var k := 2.0 * d;
    NormSquaredOfDifference(v, n.Scale(k));
    NormSquaredOfScaled(n, k);
    DotBilinear(n, n, v, k);
    DotCommutative(n.Scale(k), v);
    DotCommutative(n, v);
    assert v.Dot(n.Scale(k)) == k * d;
    assert k * k * 1.0 == 4.0 * d * d;
  }
}
