/** `Ray`: an origin and a direction; `At(t)` is the point at parameter `t`. */
module Rays {
  import opened Vectors

  datatype Ray = Ray(orig: Point3, dir: Vec3)
  {
    /** `origin()` */
    function Origin(): Point3
    {
      orig
    }

    /** `direction()` */
    function Direction(): Vec3
    {
      dir
    }

    /** `at(t)`: the point `orig + t * dir`. */
    function At(t: real): (p: Point3)
      ensures Sub(p, orig) == Scale(t, dir)
    {
      Add(orig, Scale(t, dir))
    }
  }

  /** `Ray()`: both members are default-constructed, that is zero. */
  const DefaultRay: Ray := Ray(Zero, Zero)

  /** The ray starts at its origin, and moving `s` then `t` along it is moving `s + t`. */
  lemma AtProperties(r: Ray, s: real, t: real)
    ensures r.At(0.0) == r.Origin()
    ensures r.At(s + t) == Add(r.At(s), Scale(t, r.Direction()))
    ensures r.Direction() == Zero ==> r.At(t) == r.Origin()
  {
  }

  /** Distinct parameters give distinct points, unless the direction is zero. */
  lemma AtInjective(r: Ray, s: real, t: real)
    requires r.dir != Zero
    requires r.At(s) == r.At(t)
    ensures s == t
  {
    var d := r.dir;
    if d.x != 0.0 {
      assert (s - t) * d.x == 0.0;
    } else if d.y != 0.0 {
      assert (s - t) * d.y == 0.0;
    } else {
      assert (s - t) * d.z == 0.0;
    }
  }
}
