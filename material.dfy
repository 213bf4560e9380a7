/** Materials: how a ray that hit a surface is scattered. The random vector each
    `scatter` draws is passed in as `sample`. */
module Materials {
  import opened Utils
  import opened Vectors
  import opened Rays
  import opened Hittables
  import opened Colors

  /** The two materials; `Material::scatter` is dispatched on the variant. */
  datatype Material = Lambertian(albedo: Color) | Metal(albedo: Color, fuzz: real)
  {
    /** `scatter(ray, hit, attenuation, scattered)`: the returned flag and the two
        out-parameters. `sample` is `random_unit_vector()` for a Lambertian
        surface and `random_in_unit_sphere()` for a metal one. */
    method Scatter(sqrt: real -> real, ray: Ray, hit: HitData, sample: Vec3)
      returns (scatters: bool, attenuation: Color, scattered: Ray)
      requires Metal? ==> IsSqrt(sqrt) && ray.Direction() != Zero
      ensures attenuation == albedo
      ensures scattered.Origin() == hit.p
      ensures Lambertian? ==> scatters && scattered.Direction() == LambertianDirection(hit.normal, sample)
      ensures Metal? ==> scattered.Direction() == MetalDirection(sqrt, fuzz, ray.Direction(), hit.normal, sample)
      ensures Metal? ==> (scatters <==> 0.0 < Dot(scattered.Direction(), hit.normal))
    {
      match this
      case Lambertian(albedo) =>
        var scatterDirection := Add(hit.normal, sample);
        if scatterDirection.NearZero() {
          scatterDirection := hit.normal;
        }
        scattered := Ray(hit.p, scatterDirection);
        attenuation := albedo;
        scatters := true;
      case Metal(albedo, fuzz) =>
        var reflected := Reflect(UnitVector(sqrt, ray.Direction()), hit.normal);
        scattered := Ray(hit.p, Add(reflected, Scale(fuzz, sample)));
        attenuation := albedo;
        scatters := Dot(scattered.Direction(), hit.normal) > 0.0;
    }
  }

  /** `Metal(albedo, fuzz)`: a fuzz of 1 or more is stored as 1; a negative fuzz
      is kept as it is. */
  function NewMetal(albedo: Color, fuzz: real): (m: Material)
    ensures m.Metal? && m.albedo == albedo
    ensures m.fuzz <= 1.0
    ensures fuzz < 1.0 ==> m.fuzz == fuzz
    ensures 1.0 <= fuzz ==> m.fuzz == 1.0
  {
    Metal(albedo, if fuzz < 1.0 then fuzz else 1.0)
  }

  /** The Lambertian scatter direction: the normal plus the sample, or the normal
      alone when that sum is near zero. */
  function LambertianDirection(normal: Vec3, sample: Vec3): Vec3
  {
    var d := Add(normal, sample);
    if d.NearZero() then normal else d
  }

  /** For a metal surface: the unit incoming direction mirrored in the normal,
      plus `fuzz` times the sample. */
  function MetalDirection(sqrt: real -> real, fuzz: real, dir: Vec3, normal: Vec3, sample: Vec3): Vec3
    requires IsSqrt(sqrt) && dir != Zero
  {
    Add(Reflect(UnitVector(sqrt, dir), normal), Scale(fuzz, sample))
  }

  /** The near-zero fallback means the direction is near zero only when the normal
      is: a normal that is not near zero never gives a degenerate direction. */
  lemma LambertianDirectionNotNearZero(normal: Vec3, sample: Vec3)
    ensures LambertianDirection(normal, sample).NearZero() ==> LambertianDirection(normal, sample) == normal
    ensures !normal.NearZero() ==> !LambertianDirection(normal, sample).NearZero()
  {
  }

  /** With a unit normal and a unit sample the direction never points into the surface. */
  lemma LambertianDirectionOutward(normal: Vec3, sample: Vec3)
    requires normal.LengthSquared() == 1.0 && sample.LengthSquared() == 1.0
    ensures 0.0 <= Dot(LambertianDirection(normal, sample), normal)
  {
    if Add(normal, sample).NearZero() {
      DotSymmetric(normal, normal);
    } else {
      UnitDotLowerBound(normal, sample);
    }
  }

  /** For unit vectors `n` and `s`, `dot(n + s, n) = 1 + dot(s, n)` is never negative,
      because `|n + s|^2 = 2 + 2 dot(s, n)` is not. */
  lemma UnitDotLowerBound(n: Vec3, s: Vec3)
    requires n.LengthSquared() == 1.0 && s.LengthSquared() == 1.0
    ensures 0.0 <= Dot(Add(n, s), n)
  {
    LengthSquaredAdd(n, s);
    DotAddLeft(n, s, n);
    DotSymmetric(n, n);
    DotSymmetric(s, n);
  }

  lemma LengthSquaredAdd(u: Vec3, v: Vec3)
    ensures Add(u, v).LengthSquared() == u.LengthSquared() + 2.0 * Dot(u, v) + v.LengthSquared()
  {
  }

  lemma DotAddLeft(u: Vec3, v: Vec3, w: Vec3)
    ensures Dot(Add(u, v), w) == Dot(u, w) + Dot(v, w)
  {
  }

  /** With no fuzz the scattered direction is the mirror direction, it has unit
      length when the normal has, and a metal surface with a unit normal scatters
      exactly the rays that arrive against its normal. */
  lemma MetalMirror(sqrt: real -> real, dir: Vec3, normal: Vec3, sample: Vec3)
    requires IsSqrt(sqrt) && dir != Zero
    ensures MetalDirection(sqrt, 0.0, dir, normal, sample) == Reflect(UnitVector(sqrt, dir), normal)
    ensures normal.LengthSquared() == 1.0 ==>
      && MetalDirection(sqrt, 0.0, dir, normal, sample).LengthSquared() == 1.0
      && (0.0 < Dot(MetalDirection(sqrt, 0.0, dir, normal, sample), normal) <==> Dot(dir, normal) < 0.0)
  {
    var u := UnitVector(sqrt, dir);
    if normal.LengthSquared() == 1.0 {
      ReflectUnitNormal(u, normal);
      var len := dir.Length(sqrt);
      SqrtPositive(sqrt, dir.LengthSquared());
      DotScale(len, u, normal);
      PositiveFactorSign(len, Dot(u, normal));
    }
  }
}
