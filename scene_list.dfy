/** The Scene class of Scene.h as a mutable list of objects: add and clear
    change the list in place, and rayHit is the loop that narrows
    closestSoFar. The loop is proved to compute Objects.RayHit of the list,
    and the properties of the scan are proved about that function. */
module Scenes {
  import opened Helpers
  import opened Intervals
  import opened Rays
  import opened HitRecords
  import opened Materials
  import O = Objects

  class Scene {
    var objects: seq<O.Object>

    /** Scene() = default: no objects. */
    constructor ()
      ensures objects == []
    {
      objects := [];
    }

    /** Scene(o): a scene holding the one object o. */
    constructor FromObject(o: O.Object)
      ensures objects == [o]
    {
      objects := [o];
    }

    /** add(o) appends o at the end. */
    method Add(o: O.Object)
      modifies this
      ensures objects == old(objects) + [o]
    {
      objects := objects + [o];
    }

    /** clear() removes every object. */
    method Clear()
      modifies this
      ensures objects == []
    {
      objects := [];
    }

    /** The scene as an Object, the form in which it is nested in other
        scenes and hierarchy nodes. */
    function AsObject(): O.Object
      reads this
    {
      O.Scene(objects)
    }

    /** rayHit: ask each object in turn for a hit in (min, closestSoFar);
        each hit becomes the record and shrinks closestSoFar. */
    method RayHit(ray: Ray, rayInterval: Interval, boxHit: O.BoxTest, sqrt: real -> real)
      returns (r: Option<Hit<Material>>)
      ensures r == O.RayHit(AsObject(), ray, rayInterval, boxHit, sqrt)
      ensures r.Some? ==> rayInterval.Surrounds(r.value.t)
    {
      var tempHitRecord: Option<Hit<Material>> := None;
      var hitAnything := false;
      var closestSoFar := rayInterval.max;
      var k := 0;
      while k < |objects|
        invariant 0 <= k <= |objects|
        invariant hitAnything <==> tempHitRecord.Some?
        invariant tempHitRecord.Some? ==>
          (tempHitRecord.value.frontFace <==> ray.direction.Dot(tempHitRecord.value.normal) < 0.0)
        invariant O.ScanFrom(AsObject(), k, ray, rayInterval.min, closestSoFar, tempHitRecord, boxHit, sqrt) ==
                  O.RayHit(AsObject(), ray, rayInterval, boxHit, sqrt)
      {
        var tempHit := O.RayHit(objects[k], ray, Interval(rayInterval.min, closestSoFar), boxHit, sqrt);
        if tempHit.Some? {
          hitAnything := true;
          closestSoFar := Fin(tempHit.value.t);
          tempHitRecord := tempHit;
        }
        k := k + 1;
      }
      r := if hitAnything then tempHitRecord else None;
    }
  }

  /** A scan that has accepted nothing yet and still has closestSoFar at the
      top of the interval finds nothing exactly when no remaining object
      reports a hit for the whole interval. */
  lemma {:induction false} ScanMissesExactly(scene: O.Object, k: nat, ray: Ray, interval: Interval,
                                             boxHit: O.BoxTest, sqrt: real -> real)
    requires scene.Scene? && k <= |scene.objects|
    ensures O.ScanFrom(scene, k, ray, interval.min, interval.max, None, boxHit, sqrt) == None <==>
      forall j :: k <= j < |scene.objects| ==> O.RayHit(scene.objects[j], ray, interval, boxHit, sqrt) == None
    decreases |scene.objects| - k
  {
    if k < |scene.objects| {
      assert Interval(interval.min, interval.max) == interval;
      ScanMissesExactly(scene, k + 1, ray, interval, boxHit, sqrt);
    }
  }

  /** Scene::rayHit returns no hit exactly when no member reports a hit. */
  lemma SceneMissesExactly(objects: seq<O.Object>, ray: Ray, interval: Interval,
                           boxHit: O.BoxTest, sqrt: real -> real)
    ensures O.RayHit(O.Scene(objects), ray, interval, boxHit, sqrt) == None <==>
      forall j :: 0 <= j < |objects| ==> O.RayHit(objects[j], ray, interval, boxHit, sqrt) == None
  {
    ScanMissesExactly(O.Scene(objects), 0, ray, interval, boxHit, sqrt);
  }

  /** Once a hit has been accepted the scan never returns nothing: the
      record can only be replaced by a nearer hit. */
  lemma {:induction false} ScanKeepsAHit(scene: O.Object, k: nat, ray: Ray, min: ExtReal, closest: ExtReal,
                                         acc: Option<Hit<Material>>, boxHit: O.BoxTest, sqrt: real -> real)
    requires scene.Scene? && k <= |scene.objects|
    requires acc.Some? && (acc.value.frontFace <==> ray.direction.Dot(acc.value.normal) < 0.0)
    ensures O.ScanFrom(scene, k, ray, min, closest, acc, boxHit, sqrt).Some?
    decreases |scene.objects| - k
  {
    if k < |scene.objects| {
      var tempHit := O.RayHit(scene.objects[k], ray, Interval(min, closest), boxHit, sqrt);
      if tempHit.Some? {
        ScanKeepsAHit(scene, k + 1, ray, min, Fin(tempHit.value.t), tempHit, boxHit, sqrt);
      } else {
        ScanKeepsAHit(scene, k + 1, ray, min, closest, acc, boxHit, sqrt);
      }
    }
  }

  /** The last member wins whenever it reports a hit for the interval
      narrowed by everything before it: appending an object that hits in
      (min, closestSoFar) makes its hit the result. */
  lemma {:induction false} ScanLastAcceptedWins(scene: O.Object, k: nat, ray: Ray, min: ExtReal, closest: ExtReal,
                                                acc: Option<Hit<Material>>, boxHit: O.BoxTest, sqrt: real -> real)
    requires scene.Scene? && k < |scene.objects|
    requires acc.Some? ==> (acc.value.frontFace <==> ray.direction.Dot(acc.value.normal) < 0.0)
    requires forall j :: k <= j < |scene.objects| - 1 ==>
      O.RayHit(scene.objects[j], ray, Interval(min, closest), boxHit, sqrt) == None
    ensures var last := O.RayHit(scene.objects[|scene.objects| - 1], ray, Interval(min, closest), boxHit, sqrt);
      last.Some? ==> O.ScanFrom(scene, k, ray, min, closest, acc, boxHit, sqrt) == last
    decreases |scene.objects| - k
  {
    if k < |scene.objects| - 1 {
      ScanLastAcceptedWins(scene, k + 1, ray, min, closest, acc, boxHit, sqrt);
    }
  }

  /** No member in [from, to) hits the interval. */
  predicate MissFrom(objects: seq<O.Object>, from: int, to: int, ray: Ray, interval: Interval,
                     boxHit: O.BoxTest, sqrt: real -> real)
  {
    forall j :: from <= j < to && 0 <= j < |objects| ==> O.RayHit(objects[j], ray, interval, boxHit, sqrt).None?
  }

  /** Every member in [from, to) misses the interval or hits it no nearer than t. */
  predicate NoneNearer(objects: seq<O.Object>, from: int, to: int, ray: Ray, interval: Interval,
                       boxHit: O.BoxTest, sqrt: real -> real, t: real)
  {
    forall j :: from <= j < to && 0 <= j < |objects| && O.RayHit(objects[j], ray, interval, boxHit, sqrt).Some? ==>
      t <= O.RayHit(objects[j], ray, interval, boxHit, sqrt).value.t
  }

  /** Every member in [from, to) misses the interval or hits it strictly farther than t. */
  predicate AllFarther(objects: seq<O.Object>, from: int, to: int, ray: Ray, interval: Interval,
                       boxHit: O.BoxTest, sqrt: real -> real, t: real)
  {
    forall j :: from <= j < to && 0 <= j < |objects| && O.RayHit(objects[j], ray, interval, boxHit, sqrt).Some? ==>
      t < O.RayHit(objects[j], ray, interval, boxHit, sqrt).value.t
  }

  /** r is the hit of some member j >= from for the interval, and every
      member in [from, j) misses or hits strictly farther. */
  predicate FirstNearestFrom(objects: seq<O.Object>, from: int, r: Option<Hit<Material>>, ray: Ray,
                             interval: Interval, boxHit: O.BoxTest, sqrt: real -> real)
  {
    r.Some? &&
    exists j :: from <= j < |objects| && 0 <= j && O.RayHit(objects[j], ray, interval, boxHit, sqrt) == r &&
      AllFarther(objects, from, j, ray, interval, boxHit, sqrt, r.value.t)
  }

  /** The scan of Scene::rayHit over spheres and planes, from member k on,
      with closestSoFar and the record acc as the loop keeps them: the top of
      the interval while nothing is accepted, otherwise the distance of the
      record. Whenever a remaining member hits for the whole interval, the
      scan returns a hit no farther; and the result is acc, or the first
      nearest hit of the remaining members, nearer than closestSoFar. */
  lemma {:induction false} ScanFindsNearest(scene: O.Object, k: nat, ray: Ray, interval: Interval, closest: ExtReal,
                                            acc: Option<Hit<Material>>, boxHit: O.BoxTest, sqrt: real -> real)
    requires scene.Scene? && k <= |scene.objects| && IsSqrt(sqrt)
    requires forall j :: 0 <= j < |scene.objects| ==> O.Primitive(scene.objects[j])
    requires acc.Some? ==> (acc.value.frontFace <==> ray.direction.Dot(acc.value.normal) < 0.0)
    requires AtMost(closest, interval.max)
    requires acc.None? ==> closest == interval.max
    requires acc.Some? ==> closest == Fin(acc.value.t)
    ensures var r := O.ScanFrom(scene, k, ray, interval.min, closest, acc, boxHit, sqrt);
      (r.None? ==> MissFrom(scene.objects, k, |scene.objects|, ray, interval, boxHit, sqrt)) &&
      (r.Some? ==> NoneNearer(scene.objects, k, |scene.objects|, ray, interval, boxHit, sqrt, r.value.t))
    ensures var r := O.ScanFrom(scene, k, ray, interval.min, closest, acc, boxHit, sqrt);
      r == acc ||
      (r.Some? && Interval(interval.min, closest).Surrounds(r.value.t) &&
       FirstNearestFrom(scene.objects, k, r, ray, interval, boxHit, sqrt))
    decreases |scene.objects| - k
  {
    if k < |scene.objects| {
      var min := interval.min;
      var o := scene.objects[k];
      var temp := O.RayHit(o, ray, Interval(min, closest), boxHit, sqrt);
      O.PrimitiveNarrowing(o, ray, min, interval.max, closest, boxHit, sqrt);
      assert Interval(min, interval.max) == interval;
      if temp.Some? {
        var t := temp.value.t;
        ScanFindsNearest(scene, k + 1, ray, interval, Fin(t), temp, boxHit, sqrt);
        ScanStepAccepts(scene, k, ray, interval, closest, acc, boxHit, sqrt);
      } else {
        ScanFindsNearest(scene, k + 1, ray, interval, closest, acc, boxHit, sqrt);
        if acc.Some? {
          ScanKeepsAHit(scene, k + 1, ray, min, closest, acc, boxHit, sqrt);
        }
        ScanStepPasses(scene, k, ray, interval, closest, acc, boxHit, sqrt);
      }
    }
  }

  /** One step of ScanFindsNearest where member k hits the narrowed interval. */
  lemma ScanStepAccepts(scene: O.Object, k: nat, ray: Ray, interval: Interval, closest: ExtReal,
                        acc: Option<Hit<Material>>, boxHit: O.BoxTest, sqrt: real -> real)
    requires scene.Scene? && k < |scene.objects|
    requires acc.Some? ==> (acc.value.frontFace <==> ray.direction.Dot(acc.value.normal) < 0.0)
    requires var temp := O.RayHit(scene.objects[k], ray, Interval(interval.min, closest), boxHit, sqrt);
      temp.Some? && O.RayHit(scene.objects[k], ray, interval, boxHit, sqrt) == temp &&
      var r := O.ScanFrom(scene, k + 1, ray, interval.min, Fin(temp.value.t), temp, boxHit, sqrt);
      (r.Some? ==> NoneNearer(scene.objects, k + 1, |scene.objects|, ray, interval, boxHit, sqrt, r.value.t)) &&
      (r == temp ||
       (r.Some? && Interval(interval.min, Fin(temp.value.t)).Surrounds(r.value.t) &&
        FirstNearestFrom(scene.objects, k + 1, r, ray, interval, boxHit, sqrt)))
    ensures var r := O.ScanFrom(scene, k, ray, interval.min, closest, acc, boxHit, sqrt);
      r.Some? && NoneNearer(scene.objects, k, |scene.objects|, ray, interval, boxHit, sqrt, r.value.t) &&
      Interval(interval.min, closest).Surrounds(r.value.t) &&
      FirstNearestFrom(scene.objects, k, r, ray, interval, boxHit, sqrt)
  {
    var objects := scene.objects;
    var temp := O.RayHit(objects[k], ray, Interval(interval.min, closest), boxHit, sqrt);
    var t := temp.value.t;
    var r := O.ScanFrom(scene, k + 1, ray, interval.min, Fin(t), temp, boxHit, sqrt);
    assert O.ScanFrom(scene, k, ray, interval.min, closest, acc, boxHit, sqrt) == r;
    assert r.Some? && r.value.t <= t;
    if r == temp {
      assert AllFarther(objects, k, k, ray, interval, boxHit, sqrt, r.value.t);
    } else {
      var j :| k + 1 <= j < |objects| && O.RayHit(objects[j], ray, interval, boxHit, sqrt) == r &&
        AllFarther(objects, k + 1, j, ray, interval, boxHit, sqrt, r.value.t);
      assert AllFarther(objects, k, j, ray, interval, boxHit, sqrt, r.value.t);
    }
  }

  /** One step of ScanFindsNearest where member k misses the narrowed interval. */
  lemma ScanStepPasses(scene: O.Object, k: nat, ray: Ray, interval: Interval, closest: ExtReal,
                       acc: Option<Hit<Material>>, boxHit: O.BoxTest, sqrt: real -> real)
    requires scene.Scene? && k < |scene.objects|
    requires acc.Some? ==> (acc.value.frontFace <==> ray.direction.Dot(acc.value.normal) < 0.0)
    requires acc.None? ==> closest == interval.max
    requires acc.Some? ==> closest == Fin(acc.value.t)
    requires O.RayHit(scene.objects[k], ray, Interval(interval.min, closest), boxHit, sqrt).None?
    requires var whole := O.RayHit(scene.objects[k], ray, interval, boxHit, sqrt);
      whole.Some? ==> !Interval(interval.min, closest).Surrounds(whole.value.t)
    requires var r := O.ScanFrom(scene, k + 1, ray, interval.min, closest, acc, boxHit, sqrt);
      (acc.Some? ==> r.Some?) &&
      (r.None? ==> MissFrom(scene.objects, k + 1, |scene.objects|, ray, interval, boxHit, sqrt)) &&
      (r.Some? ==> NoneNearer(scene.objects, k + 1, |scene.objects|, ray, interval, boxHit, sqrt, r.value.t)) &&
      (r == acc ||
       (r.Some? && Interval(interval.min, closest).Surrounds(r.value.t) &&
        FirstNearestFrom(scene.objects, k + 1, r, ray, interval, boxHit, sqrt)))
    ensures var r := O.ScanFrom(scene, k, ray, interval.min, closest, acc, boxHit, sqrt);
      (r.None? ==> MissFrom(scene.objects, k, |scene.objects|, ray, interval, boxHit, sqrt)) &&
      (r.Some? ==> NoneNearer(scene.objects, k, |scene.objects|, ray, interval, boxHit, sqrt, r.value.t)) &&
      (r == acc ||
       (r.Some? && Interval(interval.min, closest).Surrounds(r.value.t) &&
        FirstNearestFrom(scene.objects, k, r, ray, interval, boxHit, sqrt)))
  {
    var objects := scene.objects;
    var r := O.ScanFrom(scene, k + 1, ray, interval.min, closest, acc, boxHit, sqrt);
    assert O.ScanFrom(scene, k, ray, interval.min, closest, acc, boxHit, sqrt) == r;
    var whole := O.RayHit(objects[k], ray, interval, boxHit, sqrt);
    if r.Some? && whole.Some? {
      assert r.value.t < whole.value.t || r == acc;
    }
    if r != acc {
      var j :| k + 1 <= j < |objects| && O.RayHit(objects[j], ray, interval, boxHit, sqrt) == r &&
        AllFarther(objects, k + 1, j, ray, interval, boxHit, sqrt, r.value.t);
      assert AllFarther(objects, k, j, ray, interval, boxHit, sqrt, r.value.t);
    }
  }

  /** Scene::rayHit over spheres and planes returns the nearest hit:
      whenever a member hits, the scene hits at a distance no greater; and
      the hit returned is that of a member before which every member misses
      or hits strictly farther, so of two members hitting at the same
      distance the earlier one wins. */
  lemma SceneFindsNearest(objects: seq<O.Object>, ray: Ray, interval: Interval,
                          boxHit: O.BoxTest, sqrt: real -> real)
    requires IsSqrt(sqrt) && forall j :: 0 <= j < |objects| ==> O.Primitive(objects[j])
    ensures var r := O.RayHit(O.Scene(objects), ray, interval, boxHit, sqrt);
      forall j :: 0 <= j < |objects| && O.RayHit(objects[j], ray, interval, boxHit, sqrt).Some? ==>
        r.Some? && r.value.t <= O.RayHit(objects[j], ray, interval, boxHit, sqrt).value.t
    ensures var r := O.RayHit(O.Scene(objects), ray, interval, boxHit, sqrt);
      r.Some? ==>
        (exists j :: 0 <= j < |objects| && O.RayHit(objects[j], ray, interval, boxHit, sqrt) == r &&
          forall i :: 0 <= i < j && O.RayHit(objects[i], ray, interval, boxHit, sqrt).Some? ==>
            r.value.t < O.RayHit(objects[i], ray, interval, boxHit, sqrt).value.t)
  {
    ScanFindsNearest(O.Scene(objects), 0, ray, interval, interval.max, None, boxHit, sqrt);
  }
}
