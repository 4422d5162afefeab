/** The record of a ray-surface intersection (HitRecord.h). Intersection
    routines return it as a value (Hit); the setter interface of the class
    HitRecord, with its setFrontFace rule as written and as corrected, is
    modelled by the class below.
    The material type is a parameter so that this module does not depend on
    the materials that scatter at a hit. */
module HitRecords {
  import opened Helpers
  import opened Vectors

  /** A completed hit: where, with which normal, at which distance along the
      ray, whether the ray met the outside of the surface, and the material
      there. */
  datatype Hit<M> = Hit(point: Vector3, normal: Vector3, t: real, frontFace: bool, material: M)

  /** The normal setFrontFace stores, AS WRITTEN: the outward normal for a
      front face, otherwise its unary minus, which (Vector3.h:20) is the
      vector unchanged. */
  function StoredNormalAsWritten(rayDirection: Vector3, outwardNormal: Vector3): (n: Vector3)
    ensures rayDirection.Dot(outwardNormal) < 0.0 ==> n == outwardNormal
  {
    if rayDirection.Dot(outwardNormal) < 0.0 then outwardNormal else outwardNormal.NegAsWritten()
  }

  /** As written, the stored normal never depends on the side the ray came from. */
  lemma StoredNormalAsWrittenIsOutward(rayDirection: Vector3, outwardNormal: Vector3)
    ensures StoredNormalAsWritten(rayDirection, outwardNormal) == outwardNormal
  {
  }

  /** The normal setFrontFace evidently intends: always facing against the ray. */
  function StoredNormal(rayDirection: Vector3, outwardNormal: Vector3): (n: Vector3)
    ensures rayDirection.Dot(outwardNormal) < 0.0 ==> n == outwardNormal
    ensures rayDirection.Dot(outwardNormal) >= 0.0 ==> n == outwardNormal.Neg()
    ensures rayDirection.Dot(n) <= 0.0
  {
    if rayDirection.Dot(outwardNormal) < 0.0 then outwardNormal
    else
      DotNegated(rayDirection, outwardNormal);
      outwardNormal.Neg()
  }

  lemma DotNegated(a: Vector3, b: Vector3)
    ensures a.Dot(b.Neg()) == -a.Dot(b)
  {
  }

  /** A back-face hit where the two rules differ. */
  lemma StoredNormalDiffersOnBackFace()
    ensures StoredNormalAsWritten(Vector3(0.0, 1.0, 0.0), Vector3(0.0, 1.0, 0.0)) !=
            StoredNormal(Vector3(0.0, 1.0, 0.0), Vector3(0.0, 1.0, 0.0))
  {
  }

  /** The mutable record of HitRecord.h. */
  class HitRecord<M> {
    var hitPoint: Vector3
    var surfaceNormal: Vector3
    var distanceAlongRay: real
    var frontFace: bool
    var surfaceMaterial: Option<M>

    /** A fresh record: the two vectors are zero and there is no material
        (the pointer is null); distance and side are not initialised in the
        source, so nothing is promised about them. */
    constructor ()
      ensures hitPoint == Zero() && surfaceNormal == Zero()
      ensures surfaceMaterial == None
    {
      hitPoint := Zero();
      surfaceNormal := Zero();
      surfaceMaterial := None;
    }

    method SetHitPoint(p: Vector3)
      modifies this
      ensures hitPoint == p
      ensures surfaceNormal == old(surfaceNormal) && distanceAlongRay == old(distanceAlongRay)
      ensures frontFace == old(frontFace) && surfaceMaterial == old(surfaceMaterial)
    {
      hitPoint := p;
    }

    method SetSurfaceNormal(n: Vector3)
      modifies this
      ensures surfaceNormal == n
      ensures hitPoint == old(hitPoint) && distanceAlongRay == old(distanceAlongRay)
      ensures frontFace == old(frontFace) && surfaceMaterial == old(surfaceMaterial)
    {
      surfaceNormal := n;
    }

    method SetDistanceAlongRay(t: real)
      modifies this
      ensures distanceAlongRay == t
      ensures hitPoint == old(hitPoint) && surfaceNormal == old(surfaceNormal)
      ensures frontFace == old(frontFace) && surfaceMaterial == old(surfaceMaterial)
    {
      distanceAlongRay := t;
    }

    /** setFrontFace, AS WRITTEN: the ray meets the front face exactly when
        it runs against the outward normal; the normal stored is
        StoredNormalAsWritten, which is the outward normal on either face
        because the unary minus of Vector3.h:20 does not negate. */
    method SetFrontFace(rayDirection: Vector3, outwardNormal: Vector3)
      modifies this
      ensures frontFace <==> rayDirection.Dot(outwardNormal) < 0.0
      ensures surfaceNormal == StoredNormalAsWritten(rayDirection, outwardNormal)
      ensures surfaceNormal == outwardNormal
      ensures hitPoint == old(hitPoint) && distanceAlongRay == old(distanceAlongRay)
      ensures surfaceMaterial == old(surfaceMaterial)
    {
      frontFace := rayDirection.Dot(outwardNormal) < 0.0;
      surfaceNormal := if frontFace then outwardNormal else outwardNormal.NegAsWritten();
    }

    /** setFrontFace as evidently intended, with the corrected unary minus:
        the stored normal always faces against the ray. */
    method SetFrontFaceCorrected(rayDirection: Vector3, outwardNormal: Vector3)
      modifies this
      ensures frontFace <==> rayDirection.Dot(outwardNormal) < 0.0
      ensures surfaceNormal == StoredNormal(rayDirection, outwardNormal)
      ensures frontFace ==> surfaceNormal == outwardNormal
      ensures !frontFace ==> surfaceNormal == outwardNormal.Neg()
      ensures rayDirection.Dot(surfaceNormal) <= 0.0
      ensures hitPoint == old(hitPoint) && distanceAlongRay == old(distanceAlongRay)
      ensures surfaceMaterial == old(surfaceMaterial)
    {
      frontFace := rayDirection.Dot(outwardNormal) < 0.0;
      surfaceNormal := if frontFace then outwardNormal else outwardNormal.Neg();
    }

    method SetSurfaceMaterial(m: M)
      modifies this
      ensures surfaceMaterial == Some(m)
      ensures hitPoint == old(hitPoint) && surfaceNormal == old(surfaceNormal)
      ensures distanceAlongRay == old(distanceAlongRay) && frontFace == old(frontFace)
    {
      surfaceMaterial := Some(m);
    }
  }
}
