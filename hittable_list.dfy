/** `HittableList`: a list of objects that reports the closest hit among them. */
module HittableLists {
  import opened Utils
  import opened Vectors
  import opened Rays
  import opened Intervals
  import opened Hittables
  import opened Spheres

  /** What `hit` over the objects `objs` reports, object by object as the loop
      visits them: each object is intersected on the interval from `ray_int.min`
      up to the closest hit so far, and a hit replaces the result. */
  function ListHit(sqrt: real -> real, objs: seq<Sphere>, r: Ray, rayInt: Interval): Option<HitData>
    decreases |objs|
  {
    if objs == [] then None
    else
      var before := ListHit(sqrt, objs[..|objs| - 1], r, rayInt);
      var closestSoFar := if before.Some? then before.value.t else rayInt.max;
      var here := objs[|objs| - 1].Intersect(sqrt, r, Interval(rayInt.min, closestSoFar));
      if here.Some? then here else before
  }

  /** One step of the fold: the first `i + 1` objects report what the first `i`
      report, unless object `i` is hit below the closest hit so far. */
  lemma ListHitStep(sqrt: real -> real, objs: seq<Sphere>, r: Ray, rayInt: Interval, i: int)
    requires 0 <= i < |objs|
    ensures var before := ListHit(sqrt, objs[..i], r, rayInt);
      var closestSoFar := if before.Some? then before.value.t else rayInt.max;
      var here := objs[i].Intersect(sqrt, r, Interval(rayInt.min, closestSoFar));
      ListHit(sqrt, objs[..i + 1], r, rayInt) == if here.Some? then here else before
  {
    assert objs[..i + 1][..i] == objs[..i];
  }

  /** The same step in terms of the object's own hit on the whole interval:
      object `i` replaces the result exactly when it is hit, and its hit lies
      below the closest hit so far. */
  lemma ListHitStepWide(sqrt: real -> real, objs: seq<Sphere>, r: Ray, rayInt: Interval, i: int)
    requires IsSqrt(sqrt)
    requires 0 <= i < |objs|
    ensures var before := ListHit(sqrt, objs[..i], r, rayInt);
      var closestSoFar := if before.Some? then before.value.t else rayInt.max;
      var wide := objs[i].Intersect(sqrt, r, rayInt);
      ListHit(sqrt, objs[..i + 1], r, rayInt) ==
        if wide.Some? && wide.value.t < closestSoFar then wide else before
  {
    var before := ListHit(sqrt, objs[..i], r, rayInt);
    var closestSoFar := if before.Some? then before.value.t else rayInt.max;
    ListHitStep(sqrt, objs, r, rayInt, i);
    if before.Some? {
      ListHitIsClosest(sqrt, objs[..i], r, rayInt);
      var k :| IsClosestHit(sqrt, objs[..i], r, rayInt, k, before.value);
      ClosestIsInside(sqrt, objs[..i], r, rayInt, k, before.value);
    }
    IntersectNarrow(sqrt, objs[i], r, rayInt.min, rayInt.max, closestSoFar);
  }

  /** Object `k` is hit at `d` on the whole interval, every earlier object is
      missed or hit further away, and every later object is missed or hit no
      nearer: `d` is the nearest hit, and on a tie the first object wins. */
  predicate IsClosestHit(sqrt: real -> real, objs: seq<Sphere>, r: Ray, rayInt: Interval, k: int, d: HitData)
  {
    && 0 <= k < |objs|
    && objs[k].Intersect(sqrt, r, rayInt) == Some(d)
    && (forall j :: 0 <= j < k && objs[j].Intersect(sqrt, r, rayInt).Some? ==>
          d.t < objs[j].Intersect(sqrt, r, rayInt).value.t)
    && (forall j :: k < j < |objs| && objs[j].Intersect(sqrt, r, rayInt).Some? ==>
          d.t <= objs[j].Intersect(sqrt, r, rayInt).value.t)
  }

  /** The list reports a hit exactly when some object is hit on the whole interval. */
  lemma {:induction false} ListHitNoneIff(sqrt: real -> real, objs: seq<Sphere>, r: Ray, rayInt: Interval)
    requires IsSqrt(sqrt)
    ensures ListHit(sqrt, objs, r, rayInt).None? <==>
      forall k :: 0 <= k < |objs| ==> objs[k].Intersect(sqrt, r, rayInt).None?
    decreases |objs|
  {
    if objs != [] {
      var n := |objs| - 1;
      var init := objs[..n];
      ListHitNoneIff(sqrt, init, r, rayInt);
      var before := ListHit(sqrt, init, r, rayInt);
      var closestSoFar := if before.Some? then before.value.t else rayInt.max;
      IntersectNarrow(sqrt, objs[n], r, rayInt.min, rayInt.max, rayInt.max);
      assert forall k :: 0 <= k < n ==> init[k] == objs[k];
    }
  }

  /** A hit reported by the list is the closest hit of one of its objects. */
  lemma {:induction false} ListHitIsClosest(sqrt: real -> real, objs: seq<Sphere>, r: Ray, rayInt: Interval)
    requires IsSqrt(sqrt)
    requires ListHit(sqrt, objs, r, rayInt).Some?
    ensures exists k :: IsClosestHit(sqrt, objs, r, rayInt, k, ListHit(sqrt, objs, r, rayInt).value)
    decreases |objs|
  {
    var n := |objs| - 1;
    var init := objs[..n];
    var before := ListHit(sqrt, init, r, rayInt);
    var closestSoFar := if before.Some? then before.value.t else rayInt.max;
    var wide := objs[n].Intersect(sqrt, r, rayInt);
    if before.Some? {
      ListHitIsClosest(sqrt, init, r, rayInt);
      var k :| IsClosestHit(sqrt, init, r, rayInt, k, before.value);
      ClosestIsInside(sqrt, init, r, rayInt, k, before.value);
    }
    IntersectNarrow(sqrt, objs[n], r, rayInt.min, rayInt.max, closestSoFar);
    if wide.Some? && wide.value.t < closestSoFar {
      forall j | 0 <= j < n && objs[j].Intersect(sqrt, r, rayInt).Some?
        ensures wide.value.t < objs[j].Intersect(sqrt, r, rayInt).value.t
      {
        assert init[j] == objs[j];
        if before.None? {
          ListHitNoneIff(sqrt, init, r, rayInt);
        } else {
          var k :| IsClosestHit(sqrt, init, r, rayInt, k, before.value);
          ClosestIsLeast(sqrt, init, r, rayInt, k, before.value, j);
        }
      }
      assert IsClosestHit(sqrt, objs, r, rayInt, n, wide.value);
    } else {
      var k :| IsClosestHit(sqrt, init, r, rayInt, k, before.value);
      ClosestExtends(sqrt, objs, r, rayInt, k, before.value);
    }
  }

  lemma ClosestIsInside(sqrt: real -> real, objs: seq<Sphere>, r: Ray, rayInt: Interval, k: int, d: HitData)
    requires IsClosestHit(sqrt, objs, r, rayInt, k, d)
    ensures rayInt.Surrounds(d.t)
  {
  }

  lemma ClosestIsLeast(sqrt: real -> real, objs: seq<Sphere>, r: Ray, rayInt: Interval, k: int, d: HitData, j: int)
    requires IsClosestHit(sqrt, objs, r, rayInt, k, d)
    requires 0 <= j < |objs| && objs[j].Intersect(sqrt, r, rayInt).Some?
    ensures d.t <= objs[j].Intersect(sqrt, r, rayInt).value.t
  {
  }

  /** Appending an object that is missed, or hit no nearer, keeps the closest hit. */
  lemma ClosestExtends(sqrt: real -> real, objs: seq<Sphere>, r: Ray, rayInt: Interval, k: int, d: HitData)
    requires objs != []
    requires IsClosestHit(sqrt, objs[..|objs| - 1], r, rayInt, k, d)
    requires var last := objs[|objs| - 1].Intersect(sqrt, r, rayInt);
      last.Some? ==> d.t <= last.value.t
    ensures IsClosestHit(sqrt, objs, r, rayInt, k, d)
  {
    var n := |objs| - 1;
    var init := objs[..n];
    assert objs[k] == init[k];
    forall j | 0 <= j < k && objs[j].Intersect(sqrt, r, rayInt).Some?
      ensures d.t < objs[j].Intersect(sqrt, r, rayInt).value.t
    {
      assert objs[j] == init[j];
    }
    forall j | k < j < |objs| && objs[j].Intersect(sqrt, r, rayInt).Some?
      ensures d.t <= objs[j].Intersect(sqrt, r, rayInt).value.t
    {
      if j < n {
        assert objs[j] == init[j];
      } else {
        assert j == n;
      }
    }
  }

  /** The normal the list reports has length one, or is zero for a sphere of
      radius zero, and never points along the ray. */
  lemma {:induction false} ListHitNormal(sqrt: real -> real, objs: seq<Sphere>, r: Ray, rayInt: Interval)
    requires IsSqrt(sqrt)
    requires ListHit(sqrt, objs, r, rayInt).Some?
    ensures var d := ListHit(sqrt, objs, r, rayInt).value;
      (d.normal.LengthSquared() == 1.0 || d.normal == Zero) && Dot(r.Direction(), d.normal) <= 0.0
    decreases |objs|
  {
    var n := |objs| - 1;
    var before := ListHit(sqrt, objs[..n], r, rayInt);
    var closestSoFar := if before.Some? then before.value.t else rayInt.max;
    var here := objs[n].Intersect(sqrt, r, Interval(rayInt.min, closestSoFar));
    if here.Some? {
      IntersectNormalUnit(sqrt, objs[n], r, Interval(rayInt.min, closestSoFar));
    } else {
      ListHitNormal(sqrt, objs[..n], r, rayInt);
    }
  }

  /** A list of objects; `hit` reports the closest hit among them. */
  class HittableList {
    var objects: seq<Sphere>

    /** `HittableList()` */
    constructor ()
      ensures objects == []
    {
      objects := [];
    }

    /** `HittableList(object)` */
    constructor Single(hittable: Sphere)
      ensures objects == [hittable]
    {
      objects := [hittable];
    }

    /** `clear()` */
    method Clear()
      modifies this
      ensures objects == []
    {
      objects := [];
    }

    /** `add(object)`: appends at the end. */
    method Add(hittable: Sphere)
      modifies this
      ensures objects == old(objects) + [hittable]
    {
      objects := objects + [hittable];
    }

    /** `hit(r, ray_int, rec)`: tests every object on the interval narrowed to
        the closest hit so far, keeping the last hit found; `rec` is only
        written when some object is hit. */
    method Hit(sqrt: real -> real, r: Ray, rayInt: Interval, rec: HitRecord) returns (hitAnything: bool)
      modifies rec
      ensures hitAnything <==> ListHit(sqrt, objects, r, rayInt).Some?
      ensures hitAnything ==> ListHit(sqrt, objects, r, rayInt) == Some(rec.Data())
      ensures !hitAnything ==> unchanged(rec)
    {
      var tempRec := new HitRecord();
      hitAnything := false;
      var closestSoFar := rayInt.max;

      var i := 0;
      while i < |objects|
        invariant 0 <= i <= |objects|
        invariant hitAnything <==> ListHit(sqrt, objects[..i], r, rayInt).Some?
        invariant hitAnything ==> ListHit(sqrt, objects[..i], r, rayInt) == Some(rec.Data())
        invariant hitAnything ==> closestSoFar == rec.t
        invariant !hitAnything ==> closestSoFar == rayInt.max && unchanged(rec)
      {
        ListHitStep(sqrt, objects, r, rayInt, i);
        var hit := objects[i].Hit(sqrt, r, Interval(rayInt.min, closestSoFar), tempRec);
        if hit {
          hitAnything := true;
          closestSoFar := tempRec.t;
          rec.CopyFrom(tempRec);
        }
        i := i + 1;
      }
      assert objects[..i] == objects;
    }
  }
}
