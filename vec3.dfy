/** `Vec3`: three real components, used for points (`Point3`), directions and colours.

    The binary operators, `dot`, `cross`, `reflect` and `unit_vector` return new
    values, so a `Vec3` is a datatype here. The compound assignments `+=`, `*=`
    and `/=` and the non-const `operator[]` update the storage `e[3]` of a
    variable in place; `MutableVec3` models such a variable. */
module Vectors {
  import opened Utils

  datatype Vec3 = Vec3(x: real, y: real, z: real)
  {
    /** The const `operator[](i)`; an index outside 0..2 is undefined behaviour. */
    function Component(i: int): real
      requires 0 <= i < 3
    {
      if i == 0 then x else if i == 1 then y else z
    }

    /** `v` with component `i` replaced by `r`: what `v[i] = r` leaves behind. */
    function WithComponent(i: int, r: real): (w: Vec3)
      requires 0 <= i < 3
      ensures w.Component(i) == r
      ensures forall k :: 0 <= k < 3 && k != i ==> w.Component(k) == Component(k)
    {
      if i == 0 then Vec3(r, y, z) else if i == 1 then Vec3(x, r, z) else Vec3(x, y, r)
    }

    /** Unary `operator-` */
    function Neg(): Vec3
    {
      Vec3(-x, -y, -z)
    }

    /** `length_squared()` */
    function LengthSquared(): (r: real)
      ensures 0.0 <= r
      ensures r == 0.0 <==> this == Zero
    {
      Square(x) + Square(y) + Square(z)
    }

    /** `length()`, through the given square root. */
    function Length(sqrt: real -> real): real
    {
      sqrt(LengthSquared())
    }

    /** `near_zero()`: every component is within 1e-8 of zero. */
    predicate NearZero()
    {
      var s := 1.0e-8;
      Abs(x) < s && Abs(y) < s && Abs(z) < s
    }
  }

  /** `Point3` is an alias of `Vec3`. */
  type Point3 = Vec3

  /** `Vec3()`: the default-constructed vector. */
  const Zero: Vec3 := Vec3(0.0, 0.0, 0.0)

  /** `u + v` */
  function Add(u: Vec3, v: Vec3): Vec3
  {
    Vec3(u.x + v.x, u.y + v.y, u.z + v.z)
  }

  /** `u - v` */
  function Sub(u: Vec3, v: Vec3): Vec3
  {
    Vec3(u.x - v.x, u.y - v.y, u.z - v.z)
  }

  /** `u * v`: the component-wise product. */
  function Mul(u: Vec3, v: Vec3): Vec3
  {
    Vec3(u.x * v.x, u.y * v.y, u.z * v.z)
  }

  /** `t * v` */
  function Scale(t: real, v: Vec3): Vec3
  {
    Vec3(t * v.x, t * v.y, t * v.z)
  }

  /** `v * t`, defined in the source as `t * v`. */
  function ScaleRight(v: Vec3, t: real): Vec3
  {
    Scale(t, v)
  }

  /** `v / t`, defined in the source as `(1 / t) * v`. A zero divisor gives
      infinities or NaN in the source and is outside the model. */
  function Div(v: Vec3, t: real): Vec3
    requires t != 0.0
  {
    Scale(1.0 / t, v)
  }

  /** `dot(u, v)` */
  function Dot(u: Vec3, v: Vec3): real
  {
    u.x * v.x + u.y * v.y + u.z * v.z
  }

  /** `cross(u, v)`: the result is orthogonal to both arguments. */
  function Cross(u: Vec3, v: Vec3): (r: Vec3)
    ensures Dot(r, u) == 0.0 && Dot(r, v) == 0.0
  {
    Vec3(u.y * v.z - u.z * v.y, u.z * v.x - u.x * v.z, u.x * v.y - u.y * v.x)
  }

  /** `unit_vector(v)`: `v` divided by its length. The zero vector has no direction
      (the source divides by zero), so it is excluded. */
  function UnitVector(sqrt: real -> real, v: Vec3): (u: Vec3)
    requires IsSqrt(sqrt)
    requires v != Zero
    ensures u.LengthSquared() == 1.0
    ensures Scale(v.Length(sqrt), u) == v
  {
    var len := v.Length(sqrt);
    SqrtPositive(sqrt, v.LengthSquared());
    var u := Div(v, len);
    ScaleLengthSquared(1.0 / len, v);
    InverseSquare(len);
    ScaleInverse(len, v);
    u
  }

  /** `reflect(v, n)`: `v - 2 * dot(v, n) * n`. */
  function Reflect(v: Vec3, n: Vec3): Vec3
  {
    Sub(v, Scale(2.0 * Dot(v, n), n))
  }

  // ---------------------------------------------------------------------------
  // Algebraic properties

  lemma DotSymmetric(u: Vec3, v: Vec3)
    ensures Dot(u, v) == Dot(v, u)
    ensures u.LengthSquared() == Dot(u, u) >= 0.0
  {
  }

  lemma CrossAntiCommutative(u: Vec3, v: Vec3)
    ensures Cross(v, u) == Cross(u, v).Neg()
  {
  }

  lemma NegInvolution(v: Vec3)
    ensures v.Neg().Neg() == v
    ensures Add(v, v.Neg()) == Zero
    ensures Sub(v, v) == Zero
  {
  }

  /** The component-wise product commutes, white `(1, 1, 1)` leaves a colour
      unchanged, and black absorbs it. */
  lemma MulComponentwise(u: Vec3, v: Vec3)
    ensures Mul(u, v) == Mul(v, u)
    ensures Mul(u, Vec3(1.0, 1.0, 1.0)) == u
    ensures Mul(u, Zero) == Zero
  {
  }

  /** The zero vector is near zero, and a near-zero vector is short. */
  lemma NearZeroBounds(v: Vec3)
    ensures Zero.NearZero()
    ensures v.NearZero() ==> v.LengthSquared() < 3.0e-16
  {
    if v.NearZero() {
      SmallSquare(v.x, 1.0e-8);
      SmallSquare(v.y, 1.0e-8);
      SmallSquare(v.z, 1.0e-8);
    }
  }

  lemma SmallSquare(a: real, s: real)
    requires Abs(a) < s
    ensures Square(a) < s * s
  {
    var b := Abs(a);
    assert Square(a) == b * b;
    MulStrictMonotone(b, s, b, s);
  }

  /** Scaling by `t` multiplies the squared length by `t * t`. */
  lemma ScaleLengthSquared(t: real, v: Vec3)
    ensures Scale(t, v).LengthSquared() == Square(t) * v.LengthSquared()
  {
  }

  lemma InverseSquare(l: real)
    requires l != 0.0
    ensures Square(1.0 / l) * (l * l) == 1.0
    ensures Square(1.0 / l) * Square(l) == 1.0
  {
  }

  /** `dot` scales with either argument. */
  lemma DotScale(k: real, u: Vec3, v: Vec3)
    ensures Dot(Scale(k, u), v) == k * Dot(u, v)
    ensures Dot(u, Scale(k, v)) == k * Dot(u, v)
  {
  }

  lemma ScaleInverse(t: real, v: Vec3)
    requires t != 0.0
    ensures Scale(t, Scale(1.0 / t, v)) == v
  {
  }

  /** `dot` is linear in its first argument. */
  lemma DotSubScale(v: Vec3, k: real, n: Vec3, w: Vec3)
    ensures Dot(Sub(v, Scale(k, n)), w) == Dot(v, w) - k * Dot(n, w)
  {
  }

  /** Reflecting in a unit normal negates the normal component and keeps the length. */
  lemma ReflectUnitNormal(v: Vec3, n: Vec3)
    requires n.LengthSquared() == 1.0
    ensures Dot(Reflect(v, n), n) == -Dot(v, n)
    ensures Reflect(v, n).LengthSquared() == v.LengthSquared()
  {
    var d := Dot(v, n);
    var k := 2.0 * d;
    var r := Reflect(v, n);
    DotSymmetric(n, n);
    DotSubScale(v, k, n, n);
    assert Dot(r, n) == d - k * 1.0;
    DotSubScale(v, k, n, v);
    DotSubScale(v, k, n, r);
    DotSymmetric(r, r);
    DotSymmetric(n, v);
    DotSymmetric(v, r);
    assert Dot(r, r) == Dot(v, r) - k * Dot(n, r);
    assert Dot(v, r) == Dot(v, v) - k * d;
  }

  // ---------------------------------------------------------------------------
  // A variable of type Vec3, updated in place

  /** A `Vec3` variable: the storage `double e[3]` that the compound
      assignments and the non-const `operator[]` update in place. */
  class MutableVec3 {
    const e: array<real>

    ghost predicate Valid()
      reads this
    {
      e.Length == 3
    }

    /** The value the variable currently holds. */
    function Value(): Vec3
      reads this, e
      requires Valid()
    {
      Vec3(e[0], e[1], e[2])
    }

    /** `Vec3(e0, e1, e2)` into a fresh variable. */
    constructor (v: Vec3)
      ensures Valid() && fresh(e)
      ensures Value() == v
    {
      e := new real[3] [v.x, v.y, v.z];
    }

    /** Reading `v[i]`. */
    method Get(i: int) returns (r: real)
      requires Valid()
      requires 0 <= i < 3
      ensures r == Value().Component(i)
    {
      r := e[i];
    }

    /** Writing through the reference that the non-const `operator[]` returns. */
    method Set(i: int, r: real)
      requires Valid()
      requires 0 <= i < 3
      modifies e
      ensures Valid()
      ensures Value() == old(Value()).WithComponent(i, r)
    {
      e[i] := r;
    }

    /** `operator+=`: the variable holds the old value plus `v`; only `e[0..2]` change. */
    method AddAssign(v: Vec3)
      requires Valid()
      modifies e
      ensures Valid()
      ensures Value() == Add(old(Value()), v)
    {
      e[0] := e[0] + v.x;
      e[1] := e[1] + v.y;
      e[2] := e[2] + v.z;
    }

    /** `operator*=`: the variable holds `t` times the old value. */
    method MulAssign(t: real)
      requires Valid()
      modifies e
      ensures Valid()
      ensures Value() == Scale(t, old(Value()))
    {
      e[0] := e[0] * t;
      e[1] := e[1] * t;
      e[2] := e[2] * t;
    }

    /** `operator/=`: defined in the source as `*this *= 1 / t`. */
    method DivAssign(t: real)
      requires Valid()
      requires t != 0.0
      modifies e
      ensures Valid()
      ensures Value() == Div(old(Value()), t)
    {
      MulAssign(1.0 / t);
    }
  }
}
