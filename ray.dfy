/** A half-line origin + t * direction (Ray.h). */
module Rays {
  import opened Vectors

  datatype Ray = Ray(origin: Vector3, direction: Vector3) {

    /** pointAlongRay(t) = origin + direction * t */
    function PointAlongRay(distance: real): (p: Vector3)
      ensures p.Sub(origin) == direction.Scale(distance)
      ensures distance == 0.0 ==> p == origin
    {
      origin.Add(direction.Scale(distance))
    }
  }

  /** The constructor stores its two arguments, which the accessors return. */
  lemma AccessorsReturnArguments(o: Vector3, d: Vector3)
    ensures Ray(o, d).origin == o && Ray(o, d).direction == d
  {
  }

  /** Walking s and then t along the ray is walking s + t. */
  lemma PointAlongRayAdditive(ray: Ray, s: real, t: real)
    ensures ray.PointAlongRay(s + t) == ray.PointAlongRay(s).Add(ray.direction.Scale(t))
  {
  }

  /** A point along the ray moves linearly with the distance: two points
      differ by the direction scaled by the difference of their distances. */
  lemma PointAlongRayDifference(ray: Ray, s: real, t: real)
    ensures ray.PointAlongRay(t).Sub(ray.PointAlongRay(s)) == ray.direction.Scale(t - s)
  {
  }
}
