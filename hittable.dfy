/** The hit record filled in by `hit`, and the rule that orients its normal
    against the incoming ray. */
module Hittables {
  import opened Vectors
  import opened Rays

  /** The contents of a `hit_record_t`: the hit point, the normal at it, the ray
      parameter and whether the ray met the front face. */
  datatype HitData = HitData(p: Point3, normal: Vec3, t: real, frontFace: bool)

  /** The pair that `set_face_normal(r, outward)` stores: the front-face flag
      and the normal it selects. */
  function FaceNormal(r: Ray, outward: Vec3): (bool, Vec3)
  {
    var front := Dot(r.Direction(), outward) < 0.0;
    (front, if front then outward else outward.Neg())
  }

  /** The stored normal is the outward normal or its negation, whichever does
      not point along the ray; it has the outward normal's length; and the
      front-face flag is set exactly when the ray travels against the outward
      normal, the stored normal then agreeing with it and otherwise opposing it. */
  lemma FaceNormalOpposesRay(r: Ray, outward: Vec3)
    ensures var (front, n) := FaceNormal(r, outward);
      && (n == outward || n == outward.Neg())
      && Dot(r.Direction(), n) <= 0.0
      && n.LengthSquared() == outward.LengthSquared()
      && (front <==> Dot(r.Direction(), outward) < 0.0)
      && (front ==> 0.0 <= Dot(n, outward))
      && (!front ==> Dot(n, outward) <= 0.0)
  {
    DotSymmetric(outward, outward);
    DotNeg(r.Direction(), outward);
    DotNeg(outward, outward);
  }

  lemma DotNeg(u: Vec3, v: Vec3)
    ensures Dot(u, v.Neg()) == -Dot(u, v)
    ensures Dot(v.Neg(), v) == -Dot(v, v)
    ensures v.Neg().LengthSquared() == v.LengthSquared()
  {
  }

  /** A `hit_record_t` variable: `hit` writes into it, `rec = temp_rec` copies
      another record over it. The material member `mat` is not modelled. */
  class HitRecord {
    var p: Point3
    var normal: Vec3
    var t: real
    var frontFace: bool

    /** The record as a value. */
    function Data(): HitData
      reads this
    {
      HitData(p, normal, t, frontFace)
    }

    /** `hit_record_t rec;`. The source leaves `t` and `front_face` uninitialised;
        here they start as `0.0` and `false`. `p` and `normal` are
        default-constructed vectors, that is zero. */
    constructor ()
      ensures Data() == HitData(Zero, Zero, 0.0, false)
    {
      p := Zero;
      normal := Zero;
      t := 0.0;
      frontFace := false;
    }

    /** `set_face_normal(r, outward_normal)`: only `front_face` and `normal` change. */
    method SetFaceNormal(r: Ray, outward: Vec3)
      modifies this
      ensures (frontFace, normal) == FaceNormal(r, outward)
      ensures p == old(p) && t == old(t)
    {
      frontFace := Dot(r.Direction(), outward) < 0.0;
      normal := if frontFace then outward else outward.Neg();
    }

    /** The assignment `rec = other`. */
    method CopyFrom(other: HitRecord)
      modifies this
      ensures Data() == old(other.Data())
    {
      p := other.p;
      normal := other.normal;
      t := other.t;
      frontFace := other.frontFace;
    }
  }
}
