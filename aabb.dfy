/** Axis-aligned bounding boxes and their union (AABB.h). The slab test
    AABB::hit is not part of this model: it reads two locals before they are
    initialised, so its result is not determined by its inputs. Traversal
    takes the box test as a parameter instead. */
module Boxes {
  import opened Helpers
  import opened Vectors

  datatype AABB = AABB(min: Vector3, max: Vector3) {

    /** p lies in the closed box. */
    predicate ContainsPoint(p: Vector3) {
      min.x <= p.x <= max.x && min.y <= p.y <= max.y && min.z <= p.z <= max.z
    }

    /** Every point of inner is a point of this box, stated on the corners. */
    predicate Encloses(inner: AABB) {
      min.x <= inner.min.x && min.y <= inner.min.y && min.z <= inner.min.z &&
      inner.max.x <= max.x && inner.max.y <= max.y && inner.max.z <= max.z
    }
  }

  /** AABB() = default: both corners at the origin. */
  function DefaultBox(): AABB {
    AABB(Zero(), Zero())
  }

  /** surroundingBox: the component-wise minimum of the two min corners and
      the component-wise maximum of the two max corners. */
  function SurroundingBox(box0: AABB, box1: AABB): (r: AABB)
  {
    var small := Vector3(Min(box0.min.x, box1.min.x),
                         Min(box0.min.y, box1.min.y),
                         Min(box0.min.z, box1.min.z));
    var large := Vector3(Max(box0.max.x, box1.max.x),
                         Max(box0.max.y, box1.max.y),
                         Max(box0.max.z, box1.max.z));
    AABB(small, large)
  }

  /** Each corner component of the union is the smaller (for the min
      corner) or larger (for the max corner) of the two boxes' components. */
  lemma SurroundingBoxComponents(box0: AABB, box1: AABB)
    ensures var r := SurroundingBox(box0, box1);
      r.min.x <= box0.min.x && r.min.y <= box0.min.y && r.min.z <= box0.min.z &&
      r.min.x <= box1.min.x && r.min.y <= box1.min.y && r.min.z <= box1.min.z &&
      r.max.x >= box0.max.x && r.max.y >= box0.max.y && r.max.z >= box0.max.z &&
      r.max.x >= box1.max.x && r.max.y >= box1.max.y && r.max.z >= box1.max.z
    ensures var r := SurroundingBox(box0, box1);
      (r.min.x == box0.min.x || r.min.x == box1.min.x) && (r.max.x == box0.max.x || r.max.x == box1.max.x) &&
      (r.min.y == box0.min.y || r.min.y == box1.min.y) && (r.max.y == box0.max.y || r.max.y == box1.max.y) &&
      (r.min.z == box0.min.z || r.min.z == box1.min.z) && (r.max.z == box0.max.z || r.max.z == box1.max.z)
  {
  }

  /** The union encloses both of its arguments. */
  lemma SurroundingBoxEnclosesBoth(box0: AABB, box1: AABB)
    ensures SurroundingBox(box0, box1).Encloses(box0)
    ensures SurroundingBox(box0, box1).Encloses(box1)
  {
  }

  /** ... and it is the smallest box that does: any box enclosing both
      arguments encloses their union. */
  lemma SurroundingBoxLeast(box0: AABB, box1: AABB, outer: AABB)
    requires outer.Encloses(box0) && outer.Encloses(box1)
    ensures outer.Encloses(SurroundingBox(box0, box1))
  {
  }

  /** Every point inside either box is inside their union. */
  lemma SurroundingBoxContainsPoints(box0: AABB, box1: AABB, p: Vector3)
    requires box0.ContainsPoint(p) || box1.ContainsPoint(p)
    ensures SurroundingBox(box0, box1).ContainsPoint(p)
  {
  }

  /** Enclosure passes points inward-out. */
  lemma EnclosesContainsPoint(outer: AABB, inner: AABB, p: Vector3)
    requires outer.Encloses(inner) && inner.ContainsPoint(p)
    ensures outer.ContainsPoint(p)
  {
  }

  lemma EnclosesTransitive(a: AABB, b: AABB, c: AABB)
    requires a.Encloses(b) && b.Encloses(c)
    ensures a.Encloses(c)
  {
  }

  lemma EnclosesReflexive(a: AABB)
    ensures a.Encloses(a)
  {
  }

  lemma SurroundingBoxCommutative(box0: AABB, box1: AABB)
    ensures SurroundingBox(box0, box1) == SurroundingBox(box1, box0)
  {
  }

  lemma SurroundingBoxAssociative(a: AABB, b: AABB, c: AABB)
    ensures SurroundingBox(SurroundingBox(a, b), c) == SurroundingBox(a, SurroundingBox(b, c))
  {
  }

  lemma SurroundingBoxIdempotent(b: AABB)
    ensures SurroundingBox(b, b) == b
  {
  }
}
