/** `Camera`: derives the pixel grid from the image width and aspect ratio,
    shoots one ray through the centre of every pixel in row-major order, and
    colours it by the surface normal it hits or by a sky gradient. */
module Cameras {
  import opened Utils
  import opened Vectors
  import opened Rays
  import opened Intervals
  import opened Hittables
  import opened HittableLists
  import opened Colors

  /** The fields `init` derives: the image height, the camera centre, the centre
      of pixel (0, 0) and the steps to the next pixel right and down. */
  datatype Frame = Frame(imageHeight: int, center: Point3, pixel00Loc: Point3, pixelDeltaU: Vec3, pixelDeltaV: Vec3)

  /** `int(image_width / aspect_ratio)`, raised to 1 when smaller. */
  function ImageHeight(aspectRatio: real, imageWidth: int): (h: int)
    requires aspectRatio != 0.0
    ensures 1 <= h
  {
    var h := TruncToInt(imageWidth as real / aspectRatio);
    if h < 1 then 1 else h
  }

  /** The frame `init` computes once the image height is known: a viewport 2
      units high, as wide as the image's width-to-height ratio makes it, 1 unit
      in front of the camera along -z, divided into `image_width` by
      `image_height` pixels. Halving an edge, `edge / 2`, is written
      `0.5 * edge`, the downward edge `(0, -viewport_height, 0)` is written with
      its value `-2`, and the focal offset is subtracted after the horizontal
      half edge; `UpperLeftAsWritten` shows that this is the source's corner. */
  function Viewport(imageWidth: int, imageHeight: int): Frame
    requires imageWidth != 0 && 1 <= imageHeight
  {
    var center := Zero;
    var focalLength := 1.0;
    var viewportHeight := 2.0;
    var viewportWidth := viewportHeight * (imageWidth as real / imageHeight as real);
    var viewportU := Vec3(viewportWidth, 0.0, 0.0);
    var viewportV := Vec3(0.0, -2.0, 0.0);
    var pixelDeltaU := Div(viewportU, imageWidth as real);
    var pixelDeltaV := Div(viewportV, imageHeight as real);
    var viewportUpperLeft := Sub(Sub(Sub(center, Scale(0.5, viewportU)), Vec3(0.0, 0.0, focalLength)), Scale(0.5, viewportV));
    Frame(imageHeight, center, Add(viewportUpperLeft, Scale(0.5, Add(pixelDeltaU, pixelDeltaV))), pixelDeltaU, pixelDeltaV)
  }

  /** The upper-left corner as the source writes it, the focal offset first
      and each edge halved with `/ 2`, is exactly the corner `Viewport` and
      `init` compute with `0.5 *` and the focal offset second: `v / 2` is
      `(1 / 2) * v`, and each component is the same sum of reals. */
  lemma UpperLeftAsWritten(center: Vec3, u: Vec3, v: Vec3, focalLength: real)
    ensures Sub(Sub(Sub(center, Vec3(0.0, 0.0, focalLength)), Div(u, 2.0)), Div(v, 2.0))
         == Sub(Sub(Sub(center, Scale(0.5, u)), Vec3(0.0, 0.0, focalLength)), Scale(0.5, v))
  {
  }

  /** The ray `render` shoots through pixel `(i, j)`: from the centre towards
      `pixel00_loc + i * pixel_delta_u + j * pixel_delta_v`. */
  function PrimaryRay(f: Frame, i: int, j: int): Ray
  {
    var pixelCenter := Add(Add(f.pixel00Loc, Scale(i as real, f.pixelDeltaU)), Scale(j as real, f.pixelDeltaV));
    Ray(f.center, Sub(pixelCenter, f.center))
  }

  /** The colour `ray_color` gives a hit with this normal: `0.5 * (normal + (1, 1, 1))`. */
  function NormalColor(normal: Vec3): Color
  {
    Scale(0.5, Add(normal, Vec3(1.0, 1.0, 1.0)))
  }

  /** The sky colour for a direction: white blended towards `(0.5, 0.7, 1.0)` as
      the unit direction turns upward. */
  function SkyColor(sqrt: real -> real, direction: Vec3): Color
    requires IsSqrt(sqrt) && direction != Zero
  {
    var unitDirection := UnitVector(sqrt, direction);
    var a := 0.5 * (unitDirection.y + 1.0);
    Add(Scale(1.0 - a, Vec3(1.0, 1.0, 1.0)), Scale(a, Vec3(0.5, 0.7, 1.0)))
  }

  /** What `ray_color(r, world)` returns: the normal colour of the closest hit on
      `(0, infinity)`, or the sky colour on a miss. */
  function RayColorOf(sqrt: real -> real, objs: seq<Spheres.Sphere>, r: Ray): Color
    requires IsSqrt(sqrt) && r.Direction() != Zero
  {
    match ListHit(sqrt, objs, r, Interval(0.0, DblMax))
    case Some(d) => NormalColor(d.normal)
    case None => SkyColor(sqrt, r.Direction())
  }

  /** The colour of pixel `(i, j)` of a `width` by `height` image. */
  function PixelColor(sqrt: real -> real, objs: seq<Spheres.Sphere>, imageWidth: int, imageHeight: int, i: int, j: int): Color
    requires IsSqrt(sqrt) && imageWidth != 0 && 1 <= imageHeight
  {
    PrimaryRayClosedForm(imageWidth, imageHeight, i, j);
    RayColorOf(sqrt, objs, PrimaryRay(Viewport(imageWidth, imageHeight), i, j))
  }

  /** How many pixels `render` writes in each row: none for a negative width. */
  function Columns(imageWidth: int): nat
  {
    if imageWidth < 0 then 0 else imageWidth
  }

  class Camera {
    var aspectRatio: real
    var imageWidth: int
    var imageHeight: int
    var center: Point3
    var pixel00Loc: Point3
    var pixelDeltaU: Vec3
    var pixelDeltaV: Vec3

    /** The derived fields, as a value. */
    function Derived(): Frame
      reads this
    {
      Frame(imageHeight, center, pixel00Loc, pixelDeltaU, pixelDeltaV)
    }

    /** A camera with the default 16:9 aspect ratio and 1280-pixel width; the
        image height, left uninitialised in the source, starts at 0 here. */
    constructor ()
      ensures aspectRatio == 16.0 / 9.0 && imageWidth == 1280
      ensures Derived() == Frame(0, Zero, Zero, Zero, Zero)
    {
      aspectRatio := 16.0 / 9.0;
      imageWidth := 1280;
      imageHeight := 0;
      center := Zero;
      pixel00Loc := Zero;
      pixelDeltaU := Zero;
      pixelDeltaV := Zero;
    }

    /** `init()`: computes the derived fields from the aspect ratio and width. */
    method Init()
      requires aspectRatio != 0.0 && imageWidth != 0
      modifies this
      ensures aspectRatio == old(aspectRatio) && imageWidth == old(imageWidth)
      ensures Derived() == Viewport(imageWidth, ImageHeight(aspectRatio, imageWidth))
    {
      imageHeight := TruncToInt(imageWidth as real / aspectRatio);
      imageHeight := if imageHeight < 1 then 1 else imageHeight;

      center := Zero;

      var focalLength := 1.0;
      var viewportHeight := 2.0;
      var viewportWidth := viewportHeight * (imageWidth as real / imageHeight as real);

      var viewportU := Vec3(viewportWidth, 0.0, 0.0);
      var viewportV := Vec3(0.0, -viewportHeight, 0.0);

      pixelDeltaU := Div(viewportU, imageWidth as real);
      pixelDeltaV := Div(viewportV, imageHeight as real);

      var viewportUpperLeft := Sub(Sub(Sub(center, Scale(0.5, viewportU)), Vec3(0.0, 0.0, focalLength)), Scale(0.5, viewportV));
      pixel00Loc := Add(viewportUpperLeft, Scale(0.5, Add(pixelDeltaU, pixelDeltaV)));
    }

    /** `ray_color(r, world)`: tests the world on `(0, infinity)` with a fresh record. */
    method RayColor(sqrt: real -> real, r: Ray, world: HittableList) returns (c: Color)
      requires IsSqrt(sqrt) && r.Direction() != Zero
      ensures c == RayColorOf(sqrt, world.objects, r)
    {
      var rec := new HitRecord();
      var hit := world.Hit(sqrt, r, Interval(0.0, DblMax), rec);
      if hit {
        return Scale(0.5, Add(rec.normal, Vec3(1.0, 1.0, 1.0)));
      }
      var unitDirection := UnitVector(sqrt, r.Direction());
      var a := 0.5 * (unitDirection.y + 1.0);
      return Add(Scale(1.0 - a, Vec3(1.0, 1.0, 1.0)), Scale(a, Vec3(0.5, 0.7, 1.0)));
    }

    /** `render(world)`: runs `init`, then colours the pixels row by row. The
        colours come back in the order they are produced: entry `k` is pixel
        `(k % width, k / width)`. */
    method Render(sqrt: real -> real, world: HittableList) returns (image: seq<Color>)
      requires IsSqrt(sqrt)
      requires aspectRatio != 0.0 && imageWidth != 0
      modifies this
      ensures aspectRatio == old(aspectRatio) && imageWidth == old(imageWidth)
      ensures Derived() == Viewport(imageWidth, ImageHeight(aspectRatio, imageWidth))
      ensures |image| == imageHeight * Columns(imageWidth)
      ensures forall k :: 0 <= k < |image| ==>
        image[k] == PixelColor(sqrt, world.objects, imageWidth, imageHeight, k % imageWidth, k / imageWidth)
    {
      Init();
      image := RenderPixels(sqrt, world);
    }

    /** The two loops of `render`: row `j` outer, column `i` inner, one ray
        through the centre of each pixel. */
    method RenderPixels(sqrt: real -> real, world: HittableList) returns (image: seq<Color>)
      requires IsSqrt(sqrt) && imageWidth != 0 && 1 <= imageHeight
      requires Derived() == Viewport(imageWidth, imageHeight)
      ensures |image| == imageHeight * Columns(imageWidth)
      ensures RowMajor(sqrt, world.objects, imageWidth, imageHeight, image)
    {
      var width := Columns(imageWidth);
      image := [];
      var j := 0;
      while j < imageHeight
        invariant 0 <= j <= imageHeight
        invariant |image| == j * width
        invariant RowMajor(sqrt, world.objects, imageWidth, imageHeight, image)
      {
        var i := 0;
        while i < imageWidth
          invariant 0 <= i <= width
          invariant |image| == j * width + i
          invariant RowMajor(sqrt, world.objects, imageWidth, imageHeight, image)
        {
          var pixelCenter := Add(Add(pixel00Loc, Scale(i as real, pixelDeltaU)), Scale(j as real, pixelDeltaV));
          var rayDirection := Sub(pixelCenter, center);
          var r := Ray(center, rayDirection);
          assert r == PrimaryRay(Derived(), i, j);
          PrimaryRayClosedForm(imageWidth, imageHeight, i, j);
          var pixelColor := RayColor(sqrt, r, world);
          assert pixelColor == PixelColor(sqrt, world.objects, imageWidth, imageHeight, i, j);
          RowMajorAppend(sqrt, world.objects, imageWidth, imageHeight, image, i, j, pixelColor);
          image := image + [pixelColor];
          i := i + 1;
        }
        j := j + 1;
      }
    }
  }

  // ---------------------------------------------------------------------------
  // Properties

  /** Entry `k` of `image` is pixel `(k % width, k / width)`: the pixels in row-major order. */
  ghost predicate RowMajor(sqrt: real -> real, objs: seq<Spheres.Sphere>, imageWidth: int, imageHeight: int, image: seq<Color>)
    requires IsSqrt(sqrt) && imageWidth != 0 && 1 <= imageHeight
  {
    forall k :: 0 <= k < |image| ==>
      image[k] == PixelColor(sqrt, objs, imageWidth, imageHeight, k % imageWidth, k / imageWidth)
  }

  /** Appending pixel `(i, j)` to the first `j * width + i` pixels keeps the order. */
  lemma RowMajorAppend(sqrt: real -> real, objs: seq<Spheres.Sphere>, imageWidth: int, imageHeight: int,
                       image: seq<Color>, i: int, j: int, c: Color)
    requires IsSqrt(sqrt) && 1 <= imageHeight
    requires 0 <= j && 0 <= i < imageWidth && |image| == j * imageWidth + i
    requires RowMajor(sqrt, objs, imageWidth, imageHeight, image)
    requires c == PixelColor(sqrt, objs, imageWidth, imageHeight, i, j)
    ensures RowMajor(sqrt, objs, imageWidth, imageHeight, image + [c])
  {
    RowMajorIndex(j, i, imageWidth);
  }

  /** Entry `j * width + i` of a row-major image is column `i` of row `j`. */
  lemma RowMajorIndex(j: int, i: int, width: int)
    requires 0 <= j && 0 <= i < width
    ensures (j * width + i) / width == j && (j * width + i) % width == i
  {
    var n := j * width + i;
    var q, r := n / width, n % width;
    assert (j - q) * width == r - i;
    if j < q {
      ProductStep(q - j - 1, width);
    } else if q < j {
      ProductStep(j - q - 1, width);
    }
  }

  /** `(a + 1) * b` is at least `b` when `a` and `b` are non-negative. */
  lemma ProductStep(a: int, b: int)
    requires 0 <= a && 0 <= b
    ensures b <= (a + 1) * b
  {
    assert (a + 1) * b == a * b + b;
  }

  /** The frame in closed form: the camera sits at the origin, one step right
      is `2 / height`, one step down is `-2 / height`, and pixel (0, 0) is half a
      step in from the upper-left corner `(-width / height, 1, -1)` of the viewport. */
  lemma ViewportClosedForm(imageWidth: int, imageHeight: int)
    requires imageWidth != 0 && 1 <= imageHeight
    ensures var f := Viewport(imageWidth, imageHeight);
      var w := imageWidth as real;
      var h := imageHeight as real;
      && f.imageHeight == imageHeight
      && f.center == Zero
      && f.pixelDeltaU == Vec3(2.0 / h, 0.0, 0.0)
      && f.pixelDeltaV == Vec3(0.0, -2.0 / h, 0.0)
      && f.pixel00Loc == Vec3((1.0 - w) / h, (h - 1.0) / h, -1.0)
  {
    var w := imageWidth as real;
    var h := imageHeight as real;
    StepScalars(w, h);
  }

  lemma StepScalars(w: real, h: real)
    requires w != 0.0 && 0.0 < h
    ensures (1.0 / w) * (2.0 * (w / h)) == 2.0 / h
    ensures (1.0 / h) * -2.0 == -2.0 / h
    ensures 0.0 - 0.5 * (2.0 * (w / h)) + 0.5 * (2.0 / h) == (1.0 - w) / h
    ensures 0.5 * 2.0 + 0.5 * (-2.0 / h) == (h - 1.0) / h
  {
  }

  /** `width` steps right span the viewport's width `2 * width / height`, and
      `height` steps down span its height 2. */
  lemma StepsSpanViewport(imageWidth: int, imageHeight: int)
    requires imageWidth != 0 && 1 <= imageHeight
    ensures var f := Viewport(imageWidth, imageHeight);
      && Scale(imageWidth as real, f.pixelDeltaU) == Vec3(2.0 * (imageWidth as real / imageHeight as real), 0.0, 0.0)
      && Scale(imageHeight as real, f.pixelDeltaV) == Vec3(0.0, -2.0, 0.0)
  {
    ViewportClosedForm(imageWidth, imageHeight);
  }

  /** Pixel `(i, j)` is seen through the point `((2i + 1 - width) / height,
      (height - 2j - 1) / height, -1)`, from the origin. */
  lemma PrimaryRayClosedForm(imageWidth: int, imageHeight: int, i: int, j: int)
    requires imageWidth != 0 && 1 <= imageHeight
    ensures var r := PrimaryRay(Viewport(imageWidth, imageHeight), i, j);
      var w := imageWidth as real;
      var h := imageHeight as real;
      && r.Origin() == Zero
      && r.Direction() == Vec3((2.0 * i as real + 1.0 - w) / h, (h - 2.0 * j as real - 1.0) / h, -1.0)
      && r.Direction() != Zero
  {
    ViewportClosedForm(imageWidth, imageHeight);
  }

  /** Every pixel centre lies strictly inside the viewport, which spans
      `-width / height` to `width / height` across and -1 to 1 down. */
  lemma PixelInViewport(imageWidth: int, imageHeight: int, i: int, j: int)
    requires 1 <= imageHeight
    requires 0 <= i < imageWidth && 0 <= j < imageHeight
    ensures var d := PrimaryRay(Viewport(imageWidth, imageHeight), i, j).Direction();
      var halfWidth := imageWidth as real / imageHeight as real;
      -halfWidth < d.x < halfWidth && -1.0 < d.y < 1.0
  {
    PrimaryRayClosedForm(imageWidth, imageHeight, i, j);
    PixelOffsetsInRange(imageWidth as real, imageHeight as real, i as real, j as real);
  }

  /** The closed-form offsets of a pixel centre, for column `x` and row `y` of a
      `w` by `h` grid, lie strictly inside `(-w / h, w / h)` and `(-1, 1)`. */
  lemma PixelOffsetsInRange(w: real, h: real, x: real, y: real)
    requires 1.0 <= h && 0.0 <= x && x + 1.0 <= w && 0.0 <= y && y + 1.0 <= h
    ensures -(w / h) < (2.0 * x + 1.0 - w) / h < w / h
    ensures -1.0 < (h - 2.0 * y - 1.0) / h < 1.0
  {
    QuotientBounds(2.0 * x + 1.0 - w, w, h);
    QuotientBounds(h - 2.0 * y - 1.0, h, h);
    assert h / h == 1.0;
  }

  lemma QuotientBounds(x: real, bound: real, h: real)
    requires 0.0 < h && -bound < x < bound
    ensures -(bound / h) < x / h < bound / h
  {
  }

  /** A component of a vector of length at most one lies in `[-1, 1]`. */
  lemma ComponentsBounded(v: Vec3)
    requires v.LengthSquared() <= 1.0
    ensures -1.0 <= v.x <= 1.0 && -1.0 <= v.y <= 1.0 && -1.0 <= v.z <= 1.0
  {
    SquareAtMostOne(v.x);
    SquareAtMostOne(v.y);
    SquareAtMostOne(v.z);
  }

  lemma SquareAtMostOne(a: real)
    requires Square(a) <= 1.0
    ensures -1.0 <= a <= 1.0
  {
    var b := Abs(a);
    assert b * b == Square(a);
    NonNegativeSquareLe(b, 1.0);
  }

  /** The normal colour lies in the unit cube when the normal's components lie in `[-1, 1]`. */
  lemma NormalColorInUnitCube(normal: Vec3)
    requires -1.0 <= normal.x <= 1.0 && -1.0 <= normal.y <= 1.0 && -1.0 <= normal.z <= 1.0
    ensures var c := NormalColor(normal);
      0.0 <= c.x <= 1.0 && 0.0 <= c.y <= 1.0 && 0.0 <= c.z <= 1.0
  {
  }

  /** The sky colour lies between white and `(0.5, 0.7, 1.0)` in every component:
      white looking straight down, the blue looking straight up. */
  lemma SkyColorBetween(sqrt: real -> real, direction: Vec3)
    requires IsSqrt(sqrt) && direction != Zero
    ensures var c := SkyColor(sqrt, direction);
      0.5 <= c.x <= 1.0 && 0.7 <= c.y <= 1.0 && c.z == 1.0
    ensures direction.x == 0.0 && direction.z == 0.0 && 0.0 < direction.y ==>
      SkyColor(sqrt, direction) == Vec3(0.5, 0.7, 1.0)
    ensures direction.x == 0.0 && direction.z == 0.0 && direction.y < 0.0 ==>
      SkyColor(sqrt, direction) == Vec3(1.0, 1.0, 1.0)
  {
    var u := UnitVector(sqrt, direction);
    ComponentsBounded(u);
    BlendComponents(0.5 * (u.y + 1.0));
    if direction.x == 0.0 && direction.z == 0.0 {
      VerticalUnit(sqrt, direction);
    }
  }

  /** The blend `(1 - a) * white + a * (0.5, 0.7, 1.0)`, component by component. */
  lemma BlendComponents(a: real)
    ensures Add(Scale(1.0 - a, Vec3(1.0, 1.0, 1.0)), Scale(a, Vec3(0.5, 0.7, 1.0))) == Vec3(1.0 - 0.5 * a, 1.0 - 0.3 * a, 1.0)
  {
  }

  /** A vertical direction has the unit vector `(0, 1, 0)` or `(0, -1, 0)`. */
  lemma VerticalUnit(sqrt: real -> real, direction: Vec3)
    requires IsSqrt(sqrt) && direction != Zero
    requires direction.x == 0.0 && direction.z == 0.0
    ensures 0.0 < direction.y ==> UnitVector(sqrt, direction).y == 1.0
    ensures direction.y < 0.0 ==> UnitVector(sqrt, direction).y == -1.0
  {
    var u := UnitVector(sqrt, direction);
    var len := direction.Length(sqrt);
    SqrtPositive(sqrt, direction.LengthSquared());
    assert len * u.y == direction.y;
    assert u.x == 0.0 && u.z == 0.0 by {
      assert len * u.x == 0.0 && len * u.z == 0.0;
    }
    assert u.LengthSquared() == Square(u.y);
    UnitSquare(u.y);
    PositiveFactorSign(len, u.y);
  }

  lemma UnitSquare(y: real)
    requires Square(y) == 1.0
    ensures y == 1.0 || y == -1.0
  {
    assert (y - 1.0) * (y + 1.0) == 0.0;
    ZeroProduct(y - 1.0, y + 1.0);
  }

  /** Every colour `ray_color` returns lies in the unit cube. */
  lemma RayColorInUnitCube(sqrt: real -> real, objs: seq<Spheres.Sphere>, r: Ray)
    requires IsSqrt(sqrt) && r.Direction() != Zero
    ensures var c := RayColorOf(sqrt, objs, r);
      0.0 <= c.x <= 1.0 && 0.0 <= c.y <= 1.0 && 0.0 <= c.z <= 1.0
  {
    var hit := ListHit(sqrt, objs, r, Interval(0.0, DblMax));
    if hit.Some? {
      ListHitNormal(sqrt, objs, r, Interval(0.0, DblMax));
      HitColorInUnitCube(hit.value.normal);
    } else {
      SkyColorInUnitCube(sqrt, r.Direction());
    }
  }

  lemma HitColorInUnitCube(normal: Vec3)
    requires normal.LengthSquared() == 1.0 || normal == Zero
    ensures var c := NormalColor(normal);
      0.0 <= c.x <= 1.0 && 0.0 <= c.y <= 1.0 && 0.0 <= c.z <= 1.0
  {
    ComponentsBounded(normal);
    NormalColorInUnitCube(normal);
  }

  lemma SkyColorInUnitCube(sqrt: real -> real, direction: Vec3)
    requires IsSqrt(sqrt) && direction != Zero
    ensures var c := SkyColor(sqrt, direction);
      0.0 <= c.x <= 1.0 && 0.0 <= c.y <= 1.0 && 0.0 <= c.z <= 1.0
  {
    SkyColorBetween(sqrt, direction);
  }

}
