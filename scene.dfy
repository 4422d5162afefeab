/** The objects a ray can hit and the intersection routine rayHit of each
    (Scene.h, and BVHNode.h:46-63 for the hierarchy node). An Object is one
    of the four kinds the renderer puts together: a sphere, the ground plane,
    a list of objects (Scene) and a node of the bounding volume hierarchy. */
module Objects {
  import opened Helpers
  import opened Intervals
  import opened Vectors
  import opened Rays
  import opened Boxes
  import opened HitRecords
  import opened Materials

  type NonZeroReal = r: real | r != 0.0 witness 1.0

  datatype Object =
    | Sphere(centre: Vector3, radius: NonZeroReal, material: Material)
    | Plane(centre: Vector3, material: Material)
    | Scene(objects: seq<Object>)
    | BVHNode(left: Object, right: Object, box: AABB)

  /** The sphere of the source: its centre and radius are fixed at
      (0, 0, -1) and 0.5. */
  function DefaultSphere(m: Material): Object {
    Sphere(Vector3(0.0, 0.0, -1.0), 0.5, m)
  }

  /** The plane of the source passes through (0, -0.5, 0). */
  function DefaultPlane(m: Material): Object {
    Plane(Vector3(0.0, -0.5, 0.0), m)
  }

  /** The upward normal the plane always has. */
  function PlaneNormal(): Vector3 {
    Vector3(0.0, 1.0, 0.0)
  }

  /** The box test of AABB::hit, taken as a parameter (see module Boxes). */
  type BoxTest = (AABB, Ray, Interval) -> bool

  /** boundingBox(): a hierarchy node returns its stored box. Spheres, planes
      and object lists declare no bounding box; their boxes are a parameter. */
  function BoundingBox(o: Object, leafBox: Object -> AABB): (b: AABB)
    ensures o.BVHNode? ==> b == o.box
  {
    if o.BVHNode? then o.box else leafBox(o)
  }

  /** The coefficients of the sphere's quadratic along the ray: a = |d|^2,
      the half linear coefficient h = (o - c).d, c = |o - c|^2 - r^2, and the
      quarter discriminant h^2 - a c. */
  datatype Quadratic = Quadratic(a: real, h: real, c: real, discriminant: real)

  function SphereQuadratic(centre: Vector3, radius: real, ray: Ray): (q: Quadratic)
    ensures q.a == ray.direction.LengthSquared() && q.a >= 0.0
    ensures q.h == ray.origin.Sub(centre).Dot(ray.direction)
    ensures q.c == ray.origin.Sub(centre).LengthSquared() - radius * radius
    ensures q.discriminant == q.h * q.h - q.a * q.c
  {
    var rayToCentre := ray.origin.Sub(centre);
    var a := ray.direction.LengthSquared();
    var h := rayToCentre.Dot(ray.direction);
    var c := rayToCentre.LengthSquared() - radius * radius;
    Quadratic(a, h, c, h * h - a * c)
  }

  /** The sphere's root selection: the nearer root if the interval strictly
      surrounds it, otherwise the farther root if it does, otherwise none.
      A negative discriminant has no real roots. With a == 0 (a zero
      direction) the discriminant is 0 and the source divides 0 by 0; the NaN
      it gets is surrounded by no interval, so there is no root. */
  function SphereRoot(q: Quadratic, interval: Interval, sqrt: real -> real): (t: Option<real>)
    ensures q.discriminant < 0.0 || q.a == 0.0 ==> t == None
    ensures t.Some? ==> interval.Surrounds(t.value)
    ensures q.discriminant >= 0.0 && q.a != 0.0 ==>
      var near := (-q.h - sqrt(q.discriminant)) / q.a;
      var far := (-q.h + sqrt(q.discriminant)) / q.a;
      (interval.Surrounds(near) ==> t == Some(near)) &&
      (!interval.Surrounds(near) && interval.Surrounds(far) ==> t == Some(far)) &&
      (!interval.Surrounds(near) && !interval.Surrounds(far) ==> t == None)
  {
    if q.discriminant < 0.0 || q.a == 0.0 then None
    else
      var sqrtDiscriminant := sqrt(q.discriminant);
      var near := (-q.h - sqrtDiscriminant) / q.a;
      if interval.Surrounds(near) then Some(near)
      else
        var far := (-q.h + sqrtDiscriminant) / q.a;
        if interval.Surrounds(far) then Some(far) else None
  }

  /** The record a sphere returns for a hit at distance t: the outward
      normal (p - centre) / radius, and front face when the ray runs
      against it. Scene.h stores the outward normal unflipped. */
  function SphereHit(centre: Vector3, radius: NonZeroReal, material: Material, ray: Ray, t: real): (h: Hit<Material>)
    ensures h.t == t && h.point == ray.PointAlongRay(t) && h.material == material
    ensures h.normal.Scale(radius) == h.point.Sub(centre)
    ensures h.frontFace <==> ray.direction.Dot(h.normal) < 0.0
  {
    var hitPoint := ray.PointAlongRay(t);
    var normalAtHit := hitPoint.Sub(centre).Div(radius);
    Hit(hitPoint, normalAtHit, t, ray.direction.Dot(normalAtHit) < 0.0, material)
  }

  /** The meaning of the coefficients: along the ray, the squared distance
      from the centre minus the squared radius is a t^2 + 2 h t + c, so the
      roots of the quadratic are the distances at which the ray meets the
      sphere. */
  lemma SphereQuadraticAlongRay(centre: Vector3, radius: real, ray: Ray, t: real)
    ensures var q := SphereQuadratic(centre, radius, ray);
      ray.PointAlongRay(t).Sub(centre).LengthSquared() - radius * radius ==
        q.a * t * t + 2.0 * q.h * t + q.c
  {
    var w := ray.origin.Sub(centre);
    var d := ray.direction;
    assert ray.PointAlongRay(t).Sub(centre) == Vector3(w.x + t * d.x, w.y + t * d.y, w.z + t * d.z);
    SquareAlongLine(w.x, d.x, t);
    SquareAlongLine(w.y, d.y, t);
    SquareAlongLine(w.z, d.z, t);
  }

  lemma SquareAlongLine(w: real, d: real, t: real)
    ensures (w + t * d) * (w + t * d) == w * w + 2.0 * (w * d) * t + (d * d) * t * t
  {
  }

  /** Either root (-h -+ sqrt(h^2 - a c)) / a of a t^2 + 2 h t + c. */
  lemma QuadraticRoot(a: real, h: real, c: real, s: real, t: real)
    requires a != 0.0 && s * s == h * h - a * c
    requires a * t == -h - s || a * t == -h + s
    ensures a * t * t + 2.0 * h * t + c == 0.0
  {
    var u := a * t;
    assert a * (a * t * t + 2.0 * h * t + c) == u * u + 2.0 * h * u + a * c;
    assert (u + h) * (u + h) == s * s;
    assert a * (a * t * t + 2.0 * h * t + c) == 0.0;
  }

  /** With a true square root, a distance SphereRoot returns puts the hit
      point on the sphere, and the normal the sphere stores there has unit
      length. */
  lemma SphereRootOnSphere(centre: Vector3, radius: NonZeroReal, material: Material, ray: Ray,
                           interval: Interval, sqrt: real -> real)
    requires IsSqrt(sqrt)
    ensures var t := SphereRoot(SphereQuadratic(centre, radius, ray), interval, sqrt);
      t.Some? ==>
        ray.PointAlongRay(t.value).Sub(centre).LengthSquared() == radius * radius &&
        SphereHit(centre, radius, material, ray, t.value).normal.LengthSquared() == 1.0
  {
    var q := SphereQuadratic(centre, radius, ray);
    var t := SphereRoot(q, interval, sqrt);
    if t.Some? {
      SphereRootSolves(q, interval, sqrt);
      RootOnSphere(centre, radius, material, ray, q, sqrt(q.discriminant), t.value);
    }
  }

  /** t is a root of the quadratic by one of the two root formulas, with s
      the square root of the discriminant. */
  predicate SolvesQuadratic(q: Quadratic, s: real, t: real) {
    q.a != 0.0 && s * s == q.discriminant && (q.a * t == -q.h - s || q.a * t == -q.h + s)
  }

  /** A root SphereRoot returns is given by one of the two root formulas. */
  lemma SphereRootSolves(q: Quadratic, interval: Interval, sqrt: real -> real)
    requires IsSqrt(sqrt)
    ensures var t := SphereRoot(q, interval, sqrt);
      t.Some? ==> SolvesQuadratic(q, sqrt(q.discriminant), t.value)
  {
    var t := SphereRoot(q, interval, sqrt);
    if t.Some? {
      var s := sqrt(q.discriminant);
      var near := (-q.h - s) / q.a;
      if t.value == near {
        DivisionUndone(-q.h - s, q.a, near);
      } else {
        var far := (-q.h + s) / q.a;
        DivisionUndone(-q.h + s, q.a, far);
      }
    }
  }

  /** A root of the sphere's quadratic lies on the sphere, and the normal
      there has unit length. */
  lemma RootOnSphere(centre: Vector3, radius: NonZeroReal, material: Material, ray: Ray,
                     q: Quadratic, s: real, t: real)
    requires q == SphereQuadratic(centre, radius, ray) && SolvesQuadratic(q, s, t)
    ensures ray.PointAlongRay(t).Sub(centre).LengthSquared() == radius * radius
    ensures SphereHit(centre, radius, material, ray, t).normal.LengthSquared() == 1.0
  {
    RootPointOnSphere(centre, radius, ray, q, s, t);
    SphereHitNormalUnit(centre, radius, material, ray, t);
  }

  lemma RootPointOnSphere(centre: Vector3, radius: NonZeroReal, ray: Ray, q: Quadratic, s: real, t: real)
    requires q == SphereQuadratic(centre, radius, ray) && SolvesQuadratic(q, s, t)
    ensures ray.PointAlongRay(t).Sub(centre).LengthSquared() == radius * radius
  {
    QuadraticRoot(q.a, q.h, q.c, s, t);
    SphereQuadraticAlongRay(centre, radius, ray, t);
  }

  lemma DivisionUndone(x: real, a: real, t: real)
    requires a != 0.0 && t == x / a
    ensures a * t == x
  {
  }

  /** At a point on the sphere the stored normal (p - centre) / radius has
      unit length. */
  lemma SphereHitNormalUnit(centre: Vector3, radius: NonZeroReal, material: Material, ray: Ray, t: real)
    requires ray.PointAlongRay(t).Sub(centre).LengthSquared() == radius * radius
    ensures SphereHit(centre, radius, material, ray, t).normal.LengthSquared() == 1.0
  {
    var n := SphereHit(centre, radius, material, ray, t).normal;
    NormSquaredOfScaled(n, radius);
    UnitFromScaled(n.LengthSquared(), radius * radius);
  }

  lemma UnitFromScaled(l: real, r2: real)
    requires r2 != 0.0 && r2 * l == r2
    ensures l == 1.0
  {
  }

  /** The threshold below which the plane treats a ray as parallel. */
  const ParallelEpsilon: real := 0.00000001

  /** Plane::rayHit: no hit for a ray (nearly) parallel to the plane or when
      the crossing is not strictly inside the interval. */
  function PlaneRayHit(centre: Vector3, material: Material, ray: Ray, interval: Interval): (r: Option<Hit<Material>>)
    ensures Abs(ray.direction.y) < ParallelEpsilon ==> r == None
    ensures r.Some? ==>
      var h := r.value;
      interval.Surrounds(h.t) && h.normal == PlaneNormal() && h.material == material &&
      h.point == ray.PointAlongRay(h.t) && h.point.y == centre.y &&
      (h.frontFace <==> ray.direction.y < 0.0)
    ensures Abs(ray.direction.y) >= ParallelEpsilon &&
            interval.Surrounds((centre.y - ray.origin.y) / ray.direction.y) ==>
      r.Some? && r.value.t == (centre.y - ray.origin.y) / ray.direction.y
  {
    var planeNormal := PlaneNormal();
    var denominator := planeNormal.Dot(ray.direction);
    if Abs(denominator) < ParallelEpsilon then None
    else
      var distanceToPlane := planeNormal.Dot(centre.Sub(ray.origin)) / denominator;
      if !interval.Surrounds(distanceToPlane) then None
      else
        var hitPoint := ray.PointAlongRay(distanceToPlane);
        PlaneHitHeight(ray, centre.y, distanceToPlane);
        Some(Hit(hitPoint, planeNormal, distanceToPlane, ray.direction.Dot(planeNormal) < 0.0, material))
  }

  /** Walking (c - o.y) / d.y along a ray with d.y != 0 reaches height c. */
  lemma PlaneHitHeight(ray: Ray, c: real, t: real)
    requires ray.direction.y != 0.0 && t == (c - ray.origin.y) / ray.direction.y
    ensures ray.PointAlongRay(t).y == c
  {
    calc {
      ray.PointAlongRay(t).y;
      == ray.origin.y + t * ray.direction.y;
      == ray.origin.y + (c - ray.origin.y);
      == c;
    }
  }

  /** rayHit for every kind of object. A hit is always strictly inside the
      interval, and its front-face flag says whether the ray runs against
      the stored normal. */
  function RayHit(o: Object, ray: Ray, interval: Interval, boxHit: BoxTest, sqrt: real -> real): (r: Option<Hit<Material>>)
    ensures r.Some? ==> interval.Surrounds(r.value.t)
    ensures r.Some? ==> (r.value.frontFace <==> ray.direction.Dot(r.value.normal) < 0.0)
    decreases o, 1
  {
    match o
    case Sphere(centre, radius, material) =>
      var root := SphereRoot(SphereQuadratic(centre, radius, ray), interval, sqrt);
      if root.None? then None else Some(SphereHit(centre, radius, material, ray, root.value))
    case Plane(centre, material) =>
      PlaneRayHit(centre, material, ray, interval)
    case Scene(objects) =>
      ScanFrom(o, 0, ray, interval.min, interval.max, None, boxHit, sqrt)
    case BVHNode(left, right, box) =>
      if !boxHit(box, ray, interval) then None
      else
        var leftHit := RayHit(left, ray, interval, boxHit, sqrt);
        var rightHit := RayHit(right, ray, interval, boxHit, sqrt);
        NearerHit(leftHit, rightHit)
  }

  /** A sphere or a plane: an object that reports at most one hit of its own. */
  predicate Primitive(o: Object) {
    o.Sphere? || o.Plane?
  }

  /** Narrowing the top of the interval, as Scene::rayHit does with
      closestSoFar, does not change what a sphere or a plane reports: a hit
      for the narrower interval is the hit for the wider one, and the hit for
      the wider one is still reported when the narrower interval surrounds
      it. For the sphere this relies on the nearer root coming first. */
  lemma PrimitiveNarrowing(o: Object, ray: Ray, min: ExtReal, max: ExtReal, closest: ExtReal,
                           boxHit: BoxTest, sqrt: real -> real)
    requires Primitive(o) && IsSqrt(sqrt) && AtMost(closest, max)
    ensures var whole := RayHit(o, ray, Interval(min, max), boxHit, sqrt);
            var narrowed := RayHit(o, ray, Interval(min, closest), boxHit, sqrt);
      (narrowed.Some? ==> whole == narrowed) &&
      (whole.Some? && Interval(min, closest).Surrounds(whole.value.t) ==> narrowed == whole)
  {
    if o.Sphere? {
      SphereRootNarrowing(SphereQuadratic(o.centre, o.radius, ray), min, max, closest, sqrt);
    } else {
      PlaneNarrowing(o.centre, o.material, ray, min, max, closest);
    }
  }

  lemma SphereRootNarrowing(q: Quadratic, min: ExtReal, max: ExtReal, closest: ExtReal, sqrt: real -> real)
    requires q.a >= 0.0 && IsSqrt(sqrt) && AtMost(closest, max)
    ensures var whole := SphereRoot(q, Interval(min, max), sqrt);
            var narrowed := SphereRoot(q, Interval(min, closest), sqrt);
      (narrowed.Some? ==> whole == narrowed) &&
      (whole.Some? && Interval(min, closest).Surrounds(whole.value) ==> narrowed == whole)
  {
    if q.discriminant >= 0.0 && q.a != 0.0 {
      var s := sqrt(q.discriminant);
      var near := (-q.h - s) / q.a;
      var far := (-q.h + s) / q.a;
      RootsOrdered(q.h, s, q.a);
      if Interval(min, closest).Surrounds(near) {
        NarrowerSurrounds(min, closest, max, near);
      } else if Interval(min, closest).Surrounds(far) {
        NarrowerSurrounds(min, closest, max, far);
        assert !Interval(min, max).Surrounds(near);
      }
    }
  }

  lemma PlaneNarrowing(centre: Vector3, material: Material, ray: Ray, min: ExtReal, max: ExtReal, closest: ExtReal)
    requires AtMost(closest, max)
    ensures var whole := PlaneRayHit(centre, material, ray, Interval(min, max));
            var narrowed := PlaneRayHit(centre, material, ray, Interval(min, closest));
      (narrowed.Some? ==> whole == narrowed) &&
      (whole.Some? && Interval(min, closest).Surrounds(whole.value.t) ==> narrowed == whole)
  {
    if Abs(PlaneNormal().Dot(ray.direction)) >= ParallelEpsilon {
      var t := PlaneNormal().Dot(centre.Sub(ray.origin)) / PlaneNormal().Dot(ray.direction);
      if Interval(min, closest).Surrounds(t) {
        NarrowerSurrounds(min, closest, max, t);
      }
    }
  }

  lemma RootsOrdered(h: real, s: real, a: real)
    requires a > 0.0 && s >= 0.0
    ensures (-h - s) / a <= (-h + s) / a
  {
  }

  lemma NarrowerSurrounds(min: ExtReal, closest: ExtReal, max: ExtReal, v: real)
    requires AtMost(closest, max) && Interval(min, closest).Surrounds(v)
    ensures Interval(min, max).Surrounds(v)
  {
  }

  /** The choice between the two children of a hierarchy node: the left hit
      only when it is strictly nearer, so that a tie goes to the right. */
  function NearerHit(leftHit: Option<Hit<Material>>, rightHit: Option<Hit<Material>>): (r: Option<Hit<Material>>)
    ensures r.None? <==> leftHit.None? && rightHit.None?
    ensures r == leftHit || r == rightHit
    ensures leftHit.Some? && rightHit.Some? ==>
      (r == leftHit <==> leftHit.value.t < rightHit.value.t) || leftHit == rightHit
    ensures leftHit.Some? && rightHit.Some? ==> r.value.t <= leftHit.value.t && r.value.t <= rightHit.value.t
  {
    if leftHit.Some? && rightHit.Some? then
      if leftHit.value.t < rightHit.value.t then leftHit else rightHit
    else if leftHit.Some? then leftHit
    else rightHit
  }

  /** The loop of Scene::rayHit from member k on, with closestSoFar and the
      last accepted record acc: each member is asked for a hit in
      (min, closestSoFar), and a hit becomes the new record and the new
      closestSoFar. The result is acc, or a later hit nearer than closest. */
  function ScanFrom(scene: Object, k: nat, ray: Ray, min: ExtReal, closest: ExtReal,
                    acc: Option<Hit<Material>>, boxHit: BoxTest, sqrt: real -> real): (r: Option<Hit<Material>>)
    requires scene.Scene? && k <= |scene.objects|
    requires acc.Some? ==> (acc.value.frontFace <==> ray.direction.Dot(acc.value.normal) < 0.0)
    ensures r == acc || (r.Some? && Interval(min, closest).Surrounds(r.value.t))
    ensures r.Some? ==> (r.value.frontFace <==> ray.direction.Dot(r.value.normal) < 0.0)
    decreases scene, 0, |scene.objects| - k
  {
    if k == |scene.objects| then acc
    else
      var tempHit := RayHit(scene.objects[k], ray, Interval(min, closest), boxHit, sqrt);
      if tempHit.Some? then
        var r := ScanFrom(scene, k + 1, ray, min, Fin(tempHit.value.t), tempHit, boxHit, sqrt);
        NarrowedSurrounds(min, closest, tempHit.value.t, r);
        r
      else
        ScanFrom(scene, k + 1, ray, min, closest, acc, boxHit, sqrt)
  }

  /** A distance surrounded by (min, t), where t itself lies in
      (min, closest), is surrounded by (min, closest). */
  lemma NarrowedSurrounds(min: ExtReal, closest: ExtReal, t: real, r: Option<Hit<Material>>)
    requires Interval(min, closest).Surrounds(t)
    requires r.Some? && (Interval(min, Fin(t)).Surrounds(r.value.t) || r.value.t == t)
    ensures r.Some? && Interval(min, closest).Surrounds(r.value.t)
  {
  }
}
