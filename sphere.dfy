/** `Sphere`: a centre and a non-negative radius; `hit` finds where a ray meets it. */
module Spheres {
  import opened Utils
  import opened Vectors
  import opened Rays
  import opened Intervals
  import opened Hittables

  type NonNegReal = r: real | 0.0 <= r

  datatype Sphere = Sphere(center: Point3, radius: NonNegReal)
  {
    /** `p` lies on the surface. */
    predicate OnSurface(p: Point3)
    {
      Sub(p, center).LengthSquared() == Square(radius)
    }

    /** The ray parameter `hit` settles on, if any: the nearest root in the
        open interval of the quadratic whose roots are where the ray meets the
        surface. */
    function NearestRoot(sqrt: real -> real, r: Ray, rayInt: Interval): (res: Option<real>)
      ensures res.Some? ==> rayInt.Surrounds(res.value)
    {
      var oc := Sub(center, r.Origin());
      RootIn(sqrt, r.Direction().LengthSquared(), Dot(r.Direction(), oc),
        oc.LengthSquared() - Square(radius), rayInt)
    }

    /** The outward normal at `p`: `(p - center) / radius`. For a zero radius the
        source divides by zero and gets NaN components; the model uses the zero
        vector, which, like NaN, makes the front-face test false. */
    function OutwardNormal(p: Point3): Vec3
    {
      if radius == 0.0 then Zero else Div(Sub(p, center), radius)
    }

    /** What `hit` writes into the record for parameter `t`. */
    function RecordAt(r: Ray, t: real): HitData
    {
      var p := r.At(t);
      var face := FaceNormal(r, OutwardNormal(p));
      HitData(p, face.1, t, face.0)
    }

    /** `hit(r, ray_int, rec)` as a value: the record it fills in, or `None`
        when it returns false. */
    function Intersect(sqrt: real -> real, r: Ray, rayInt: Interval): (res: Option<HitData>)
      ensures res.Some? ==> rayInt.Surrounds(res.value.t) && res.value.p == r.At(res.value.t)
    {
      match NearestRoot(sqrt, r, rayInt)
      case None => None
      case Some(t) => Some(RecordAt(r, t))
    }

    /** `hit(r, ray_int, rec)`: on a hit the record holds the result of
        `Intersect`; on a miss it is left as it was. */
    method Hit(sqrt: real -> real, r: Ray, rayInt: Interval, rec: HitRecord) returns (hit: bool)
      modifies rec
      ensures hit <==> Intersect(sqrt, r, rayInt).Some?
      ensures hit ==> Intersect(sqrt, r, rayInt) == Some(rec.Data())
      ensures !hit ==> unchanged(rec)
    {
      var oc := Sub(center, r.Origin());
      var a := r.Direction().LengthSquared();
      var h := Dot(r.Direction(), oc);
      var c := oc.LengthSquared() - Square(radius);
      assert NearestRoot(sqrt, r, rayInt) == RootIn(sqrt, a, h, c, rayInt);

      var discriminant := Discriminant(a, h, c);
      if discriminant < 0.0 {
        RootInCases(sqrt, a, h, c, rayInt);
        return false;
      }
      if a == 0.0 {
        RootInCases(sqrt, a, h, c, rayInt);
        return false;
      }

      var sqrtd := sqrt(discriminant);

      var root := (h - sqrtd) / a;
      if !rayInt.Surrounds(root) {
        root := (h + sqrtd) / a;
        if !rayInt.Surrounds(root) {
          RootInCases(sqrt, a, h, c, rayInt);
          return false;
        }
      }
      RootInCases(sqrt, a, h, c, rayInt);

      rec.t := root;
      rec.p := r.At(rec.t);
      var outward := OutwardNormal(rec.p);
      rec.SetFaceNormal(r, outward);
      return true;
    }
  }

  /** The root of `a * t * t - 2 * h * t + c` that `hit` takes: the smaller
      root `(h - sqrt(d)) / a` if the interval surrounds it, otherwise the larger
      root `(h + sqrt(d)) / a` if the interval surrounds that, where `d` is the
      discriminant `h * h - a * c`. For `a == 0` both roots are `0 / 0` in the
      source, a NaN that no interval surrounds. */
  function RootIn(sqrt: real -> real, a: real, h: real, c: real, rayInt: Interval): (res: Option<real>)
    ensures res.Some? ==> rayInt.Surrounds(res.value)
  {
    var discriminant := Discriminant(a, h, c);
    if discriminant < 0.0 || a == 0.0 then None
    else
      var sqrtd := sqrt(discriminant);
      var near := (h - sqrtd) / a;
      var far := (h + sqrtd) / a;
      if rayInt.Surrounds(near) then Some(near)
      else if rayInt.Surrounds(far) then Some(far)
      else None
  }

  /** The three ways `RootIn` can end, as `hit` tests them one after another. */
  lemma RootInCases(sqrt: real -> real, a: real, h: real, c: real, rayInt: Interval)
    ensures Discriminant(a, h, c) < 0.0 || a == 0.0 ==> RootIn(sqrt, a, h, c, rayInt) == None
    ensures 0.0 <= Discriminant(a, h, c) && a != 0.0 ==>
      var sqrtd := sqrt(Discriminant(a, h, c));
      var near, far := (h - sqrtd) / a, (h + sqrtd) / a;
      RootIn(sqrt, a, h, c, rayInt) ==
        if rayInt.Surrounds(near) then Some(near)
        else if rayInt.Surrounds(far) then Some(far)
        else None
  {
  }

  /** On the surface of a sphere with a positive radius the outward normal has
      length one; a zero radius gives the zero vector. */
  lemma OutwardNormalUnit(s: Sphere, p: Point3)
    requires s.OnSurface(p)
    ensures 0.0 < s.radius ==> s.OutwardNormal(p).LengthSquared() == 1.0
    ensures s.radius == 0.0 ==> s.OutwardNormal(p) == Zero
  {
    if s.radius != 0.0 {
      ScaleLengthSquared(1.0 / s.radius, Sub(p, s.center));
      InverseSquare(s.radius);
    }
  }

  /** `h * h - a * c`: the quadratic has real roots exactly when it is not negative. */
  function Discriminant(a: real, h: real, c: real): real
  {
    Square(h) - a * c
  }

  /** `Sphere(center, radius)`: the radius is clamped at zero with `fmax(0, radius)`. */
  function NewSphere(center: Point3, radius: real): (s: Sphere)
    ensures s.center == center
    ensures 0.0 <= radius ==> s.radius == radius
    ensures radius < 0.0 ==> s.radius == 0.0
  {
    Sphere(center, Max(0.0, radius))
  }

  // ---------------------------------------------------------------------------
  // What `hit` finds

  /** The point at parameter `t` lies on the surface exactly when `t` is a root
      of the quadratic whose coefficients `hit` computes. */
  lemma OnSurfaceIffRoot(s: Sphere, r: Ray, t: real)
    ensures var oc := Sub(s.center, r.Origin());
      s.OnSurface(r.At(t)) <==>
        Quadratic(r.Direction().LengthSquared(), Dot(r.Direction(), oc),
          oc.LengthSquared() - Square(s.radius), t) == 0.0
  {
    var oc := Sub(s.center, r.Origin());
    assert Sub(r.At(t), s.center) == Sub(Scale(t, r.dir), oc);
    LengthSquaredSubScale(t, r.dir, oc);
  }

  /** A hit lies inside the interval, on the surface, at the ray's point for its
      parameter, and no point of the surface is met at a smaller parameter
      inside the interval. */
  lemma IntersectIsNearest(sqrt: real -> real, s: Sphere, r: Ray, rayInt: Interval)
    requires IsSqrt(sqrt)
    requires s.Intersect(sqrt, r, rayInt).Some?
    ensures var d := s.Intersect(sqrt, r, rayInt).value;
      && rayInt.Surrounds(d.t)
      && d.p == r.At(d.t)
      && s.OnSurface(d.p)
      && forall u :: rayInt.Surrounds(u) && s.OnSurface(r.At(u)) ==> d.t <= u
  {
    var oc := Sub(s.center, r.Origin());
    var a, h, c := r.Direction().LengthSquared(), Dot(r.Direction(), oc), oc.LengthSquared() - Square(s.radius);
    var d := s.Intersect(sqrt, r, rayInt).value;
    IntersectOnSurface(sqrt, s, r, rayInt);
    forall u | rayInt.Surrounds(u) && s.OnSurface(r.At(u))
      ensures d.t <= u
    {
      OnSurfaceIffRoot(s, r, u);
      RootInNearest(sqrt, a, h, c, rayInt, u);
    }
  }

  lemma IntersectOnSurface(sqrt: real -> real, s: Sphere, r: Ray, rayInt: Interval)
    requires IsSqrt(sqrt)
    requires s.Intersect(sqrt, r, rayInt).Some?
    ensures s.OnSurface(s.Intersect(sqrt, r, rayInt).value.p)
  {
    var oc := Sub(s.center, r.Origin());
    var a, h, c := r.Direction().LengthSquared(), Dot(r.Direction(), oc), oc.LengthSquared() - Square(s.radius);
    RootInIsRoot(sqrt, a, h, c, rayInt);
    OnSurfaceIffRoot(s, r, s.Intersect(sqrt, r, rayInt).value.t);
  }

  /** A miss means that the ray meets the surface nowhere inside the interval,
      provided its direction is not zero. */
  lemma IntersectMissIsComplete(sqrt: real -> real, s: Sphere, r: Ray, rayInt: Interval)
    requires IsSqrt(sqrt)
    requires r.Direction() != Zero
    requires s.Intersect(sqrt, r, rayInt).None?
    ensures forall u :: rayInt.Surrounds(u) ==> !s.OnSurface(r.At(u))
  {
    var oc := Sub(s.center, r.Origin());
    var a, h, c := r.Direction().LengthSquared(), Dot(r.Direction(), oc), oc.LengthSquared() - Square(s.radius);
    forall u | rayInt.Surrounds(u)
      ensures !s.OnSurface(r.At(u))
    {
      OnSurfaceIffRoot(s, r, u);
      RootInComplete(sqrt, a, h, c, rayInt, u);
    }
  }

  /** Lowering the upper end of the interval to `hi2`, as the list does with
      the closest hit so far, keeps a hit below `hi2` and drops any other. */
  lemma IntersectNarrow(sqrt: real -> real, s: Sphere, r: Ray, lo: real, hi: real, hi2: real)
    requires IsSqrt(sqrt)
    requires hi2 <= hi
    ensures var wide := s.Intersect(sqrt, r, Interval(lo, hi));
      s.Intersect(sqrt, r, Interval(lo, hi2)) ==
        if wide.Some? && wide.value.t < hi2 then wide else None
  {
    var oc := Sub(s.center, r.Origin());
    var a, h, c := r.Direction().LengthSquared(), Dot(r.Direction(), oc), oc.LengthSquared() - Square(s.radius);
    RootInNarrow(sqrt, a, h, c, lo, hi, hi2);
  }

  /** The recorded normal has length one on a sphere of positive radius and is
      zero for a zero radius; it never points along the ray. */
  lemma IntersectNormalUnit(sqrt: real -> real, s: Sphere, r: Ray, rayInt: Interval)
    requires IsSqrt(sqrt)
    requires s.Intersect(sqrt, r, rayInt).Some?
    ensures var d := s.Intersect(sqrt, r, rayInt).value;
      && (0.0 < s.radius ==> d.normal.LengthSquared() == 1.0)
      && (s.radius == 0.0 ==> d.normal == Zero && !d.frontFace)
      && Dot(r.Direction(), d.normal) <= 0.0
  {
    var d := s.Intersect(sqrt, r, rayInt).value;
    IntersectOnSurface(sqrt, s, r, rayInt);
    var outward := s.OutwardNormal(d.p);
    var normal := d.normal;
    assert normal == FaceNormal(r, outward).1;
    OutwardNormalUnit(s, d.p);
    FaceNormalOpposesRay(r, outward);
    if s.radius == 0.0 {
      DotZero(r.Direction());
      assert normal == Zero;
    }
  }

  /** On a sphere of positive radius the ray meets the front face exactly when
      it travels against the outward direction `p - center`. */
  lemma IntersectFrontFace(sqrt: real -> real, s: Sphere, r: Ray, rayInt: Interval)
    requires s.Intersect(sqrt, r, rayInt).Some?
    requires 0.0 < s.radius
    ensures var d := s.Intersect(sqrt, r, rayInt).value;
      d.frontFace <==> Dot(r.Direction(), Sub(d.p, s.center)) < 0.0
  {
    var d := s.Intersect(sqrt, r, rayInt).value;
    DotScale(1.0 / s.radius, r.Direction(), Sub(d.p, s.center));
    PositiveFactorSign(1.0 / s.radius, Dot(r.Direction(), Sub(d.p, s.center)));
  }

  /** A ray aimed straight at the centre from outside a sphere of positive
      radius meets the sphere, in front of its origin, on the front face. The
      near surface point lies below `1 / k`, which must be below `DBL_MAX` for
      `(0, DBL_MAX)` to hold it. */
  lemma AimedAtCenterHitsFrontFace(sqrt: real -> real, s: Sphere, r: Ray, k: real)
    requires IsSqrt(sqrt)
    requires 0.0 < s.radius
    requires Square(s.radius) < Sub(s.center, r.Origin()).LengthSquared()
    requires 0.0 < k && r.Direction() == Scale(k, Sub(s.center, r.Origin()))
    requires 1.0 / k <= DblMax
    ensures var hit := s.Intersect(sqrt, r, Interval(0.0, DblMax));
      hit.Some? && hit.value.frontFace && 0.0 < hit.value.t
  {
    var rayInt := Interval(0.0, DblMax);
    var t1 := AimedAtCenterHits(sqrt, s, r, k);
    var d := s.Intersect(sqrt, r, rayInt).value;
    IntersectIsNearest(sqrt, s, r, rayInt);
    assert d.t <= t1;
    assert Sub(s.center, r.Origin()) != Zero;
    AxisDotSign(r, s.center, k, d.t);
    IntersectFrontFace(sqrt, s, r, rayInt);
  }

  /** The hit of `AimedAtCenterHitsFrontFace` exists, and the surface point
      `t1` bounds it. */
  lemma AimedAtCenterHits(sqrt: real -> real, s: Sphere, r: Ray, k: real) returns (t1: real)
    requires IsSqrt(sqrt)
    requires 0.0 < s.radius
    requires Square(s.radius) < Sub(s.center, r.Origin()).LengthSquared()
    requires 0.0 < k && r.Direction() == Scale(k, Sub(s.center, r.Origin()))
    requires 1.0 / k <= DblMax
    ensures Interval(0.0, DblMax).Surrounds(t1) && t1 < 1.0 / k && s.OnSurface(r.At(t1))
    ensures s.Intersect(sqrt, r, Interval(0.0, DblMax)).Some?
  {
    var rayInt := Interval(0.0, DblMax);
    var oc := Sub(s.center, r.Origin());
    t1 := NearSurfacePoint(sqrt, s, r, k);
    assert oc != Zero;
    assert r.Direction() != Zero;
    if s.Intersect(sqrt, r, rayInt).None? {
      IntersectMissIsComplete(sqrt, s, r, rayInt);
      assert false;
    }
  }

  /** The ray of `AimedAtCenterHitsFrontFace` meets the surface at
      `(1 - radius / |center - origin|) / k`, strictly between 0 and `1 / k`. */
  lemma NearSurfacePoint(sqrt: real -> real, s: Sphere, r: Ray, k: real) returns (t1: real)
    requires IsSqrt(sqrt)
    requires 0.0 < s.radius
    requires Square(s.radius) < Sub(s.center, r.Origin()).LengthSquared()
    requires 0.0 < k && r.Direction() == Scale(k, Sub(s.center, r.Origin()))
    ensures 0.0 < t1 < 1.0 / k
    ensures s.OnSurface(r.At(t1))
  {
    var oc := Sub(s.center, r.Origin());
    var len2 := oc.LengthSquared();
    var radius := s.radius;
    var len := sqrt(len2);
    SqrtAboveRadius(sqrt, radius, len2);
    assert 0.0 < len && len * len == len2;
    QuotientSquare(radius, len, len2);
    var q := radius / len;
    t1 := (1.0 - q) / k;
    NearParameter(radius, len, k);
    AlongAxis(r, s.center, k, t1);
    assert t1 * k - 1.0 == -q;
    assert Sub(r.At(t1), s.center) == Scale(-q, oc);
    ScaleLengthSquared(-q, oc);
  }

  /** Before the centre, a ray aimed at it travels against `p - center`. */
  lemma AxisDotSign(r: Ray, c: Point3, k: real, t: real)
    requires 0.0 < k && r.Direction() == Scale(k, Sub(c, r.Origin()))
    requires Sub(c, r.Origin()) != Zero
    requires t < 1.0 / k
    ensures Dot(r.Direction(), Sub(r.At(t), c)) < 0.0
  {
    var oc := Sub(c, r.Origin());
    var m := t * k - 1.0;
    assert m < 0.0 by {
      PositiveFactorSign(k, 1.0 / k - t);
    }
    AlongAxis(r, c, k, t);
    DotScale(k, oc, Scale(m, oc));
    DotScale(m, oc, oc);
    DotSymmetric(oc, oc);
    assert Dot(r.Direction(), Sub(r.At(t), c)) == k * (m * oc.LengthSquared());
    PositiveFactorSign(k, m * oc.LengthSquared());
  }

  lemma SqrtAboveRadius(sqrt: real -> real, radius: real, len2: real)
    requires IsSqrt(sqrt)
    requires 0.0 < radius && Square(radius) < len2
    ensures radius < sqrt(len2) && sqrt(len2) * sqrt(len2) == len2
  {
    var len := sqrt(len2);
    if len <= radius {
      MulMonotone(len, radius);
    }
  }

  lemma MulMonotone(a: real, b: real)
    requires 0.0 <= a <= b
    ensures a * a <= b * b
  {
  }

  /** The near parameter `(1 - radius / len) / k` lies strictly between 0 and
      `1 / k`, and `k` times it is `1 - radius / len`. */
  lemma NearParameter(radius: real, len: real, k: real)
    requires 0.0 < radius < len && 0.0 < k
    ensures var t1 := (1.0 - radius / len) / k;
      0.0 < t1 < 1.0 / k && t1 * k - 1.0 == -(radius / len)
  {
    var q := radius / len;
    assert 0.0 < q < 1.0;
  }

  lemma QuotientSquare(x: real, len: real, len2: real)
    requires 0.0 < len && len * len == len2
    ensures Square(-(x / len)) * len2 == Square(x)
  {
    var q := x / len;
    assert q * len == x;
    assert Square(-q) * len2 == (q * len) * (q * len);
  }

  /** For a ray whose direction is `k` times the way to `c`, the point at `t`
      lies `t * k - 1` times that way from `c`. */
  lemma AlongAxis(r: Ray, c: Point3, k: real, t: real)
    requires r.Direction() == Scale(k, Sub(c, r.Origin()))
    ensures Sub(r.At(t), c) == Scale(t * k - 1.0, Sub(c, r.Origin()))
  {
    var oc := Sub(c, r.Origin());
    assert r.At(t) == Add(r.orig, Scale(t * k, oc));
  }

  lemma DotZero(u: Vec3)
    ensures Dot(u, Zero) == 0.0 && Zero.Neg() == Zero
  {
  }

  lemma LengthSquaredSubScale(t: real, d: Vec3, v: Vec3)
    ensures Sub(Scale(t, d), v).LengthSquared()
      == Square(t) * d.LengthSquared() - 2.0 * t * Dot(d, v) + v.LengthSquared()
  {
  }

  // ---------------------------------------------------------------------------
  // The quadratic and its roots

  /** The quadratic `a * t * t - 2 * h * t + c` of the sphere test. */
  function Quadratic(a: real, h: real, c: real, t: real): real
  {
    a * Square(t) - 2.0 * h * t + c
  }

  /** What `RootIn` returns is a root of the quadratic, inside the interval. */
  lemma RootInIsRoot(sqrt: real -> real, a: real, h: real, c: real, rayInt: Interval)
    requires IsSqrt(sqrt)
    requires RootIn(sqrt, a, h, c, rayInt).Some?
    ensures Quadratic(a, h, c, RootIn(sqrt, a, h, c, rayInt).value) == 0.0
  {
    var t := RootIn(sqrt, a, h, c, rayInt).value;
    var sqrtd := sqrt(Discriminant(a, h, c));
    assert a * t == h - sqrtd || a * t == h + sqrtd;
    CandidateIsRoot(a, h, c, sqrtd, t);
  }

  /** No root of the quadratic inside the interval is smaller than the one
      `RootIn` returns. */
  lemma RootInNearest(sqrt: real -> real, a: real, h: real, c: real, rayInt: Interval, u: real)
    requires IsSqrt(sqrt) && 0.0 <= a
    requires RootIn(sqrt, a, h, c, rayInt).Some?
    requires rayInt.Surrounds(u) && Quadratic(a, h, c, u) == 0.0
    ensures RootIn(sqrt, a, h, c, rayInt).value <= u
  {
    var sqrtd := sqrt(Discriminant(a, h, c));
    RootIsCandidate(a, h, c, sqrtd, u);
    RootsOrdered(a, h, sqrtd);
    DivideBoth(a, h - sqrtd, u);
    DivideBoth(a, h + sqrtd, u);
  }

  /** When `RootIn` finds nothing, the quadratic has no root inside the
      interval, unless `a` is zero. */
  lemma RootInComplete(sqrt: real -> real, a: real, h: real, c: real, rayInt: Interval, u: real)
    requires IsSqrt(sqrt) && a != 0.0
    requires RootIn(sqrt, a, h, c, rayInt).None?
    requires rayInt.Surrounds(u)
    ensures Quadratic(a, h, c, u) != 0.0
  {
    if Discriminant(a, h, c) < 0.0 {
      NoRealRoot(a, h, c, u);
    } else if Quadratic(a, h, c, u) == 0.0 {
      var sqrtd := sqrt(Discriminant(a, h, c));
      RootIsCandidate(a, h, c, sqrtd, u);
      DivideBoth(a, h - sqrtd, u);
      DivideBoth(a, h + sqrtd, u);
    }
  }

  /** Lowering the upper end of the interval to `hi2` keeps the root `RootIn`
      found if it is still below `hi2`, and otherwise finds nothing. */
  lemma RootInNarrow(sqrt: real -> real, a: real, h: real, c: real, lo: real, hi: real, hi2: real)
    requires IsSqrt(sqrt) && 0.0 <= a
    requires hi2 <= hi
    ensures var wide := RootIn(sqrt, a, h, c, Interval(lo, hi));
      RootIn(sqrt, a, h, c, Interval(lo, hi2)) ==
        if wide.Some? && wide.value < hi2 then wide else None
  {
    if 0.0 <= Discriminant(a, h, c) && a != 0.0 {
      RootsOrdered(a, h, sqrt(Discriminant(a, h, c)));
    }
  }

  lemma CandidateIsRoot(a: real, h: real, c: real, s: real, t: real)
    requires a != 0.0
    requires Square(s) == Discriminant(a, h, c)
    requires a * t == h - s || a * t == h + s
    ensures Quadratic(a, h, c, t) == 0.0
  {
    var q := Quadratic(a, h, c, t);
    CompletedSquare(a, h, c, t);
    assert Square(a * t - h) == Square(s);
    ZeroProduct(a, q);
  }

  lemma RootIsCandidate(a: real, h: real, c: real, s: real, t: real)
    requires a != 0.0 && 0.0 <= s
    requires Square(s) == Discriminant(a, h, c)
    requires Quadratic(a, h, c, t) == 0.0
    ensures a * t == h - s || a * t == h + s
  {
    var e := a * t - h;
    CompletedSquare(a, h, c, t);
    assert (e - s) * (e + s) == Square(e) - Square(s);
    ZeroProduct(e - s, e + s);
  }

  lemma NoRealRoot(a: real, h: real, c: real, t: real)
    requires a != 0.0
    requires Discriminant(a, h, c) < 0.0
    ensures Quadratic(a, h, c, t) != 0.0
  {
    CompletedSquare(a, h, c, t);
  }

  /** `a` times the quadratic, completed to a square: `(a t - h)^2 = a q(t) + h^2 - a c`. */
  lemma CompletedSquare(a: real, h: real, c: real, t: real)
    ensures Square(a * t - h) == a * Quadratic(a, h, c, t) + Discriminant(a, h, c)
  {
  }

  lemma RootsOrdered(a: real, h: real, s: real)
    requires 0.0 < a && 0.0 <= s
    ensures (h - s) / a <= (h + s) / a
  {
    assert (h + s) / a - (h - s) / a == (2.0 * s) / a;
  }

  lemma DivideBoth(a: real, x: real, t: real)
    requires a != 0.0
    ensures a * t == x <==> t == x / a
  {
  }
}
