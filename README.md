# A verified model of a small ray tracer's core

This project models the deterministic geometry and colour logic of a small C++ ray
tracer. It covers:

- the `Interval` of ray parameters;
- the `Vec3`/`Point3`/`Color` algebra and the `Ray`;
- the hit record and its face-normal rule;
- the sphere intersection with its nearest-root selection;
- the closest-hit fold of `HittableList`;
- colour decoding and quantisation to bytes;
- Lambertian and metal scattering;
- the `Camera`, which derives its pixel grid in `init`, shoots one ray per pixel in
  row-major order and colours it with the non-recursive `ray_color`.

Doubles are modelled as Dafny `real`. The square root is not defined: every member
that needs it takes a parameter `sqrt: real -> real`, and the proofs assume only
`IsSqrt(sqrt)`. That means `sqrt(x)` is non-negative and squares to `x` for every
`x >= 0`. The random vectors that scattering draws are parameters.

The model follows the code's form:

- values (`Interval`, `Vec3`, `Ray`, `Sphere`, `Material`) are datatypes;
- state that the code updates in place is a class:
  - the storage of a `Vec3` variable under `+=`, `*=`, `/=` and `v[i] = r` (`MutableVec3`);
  - the out-parameter `hit_record_t` (`HitRecord`);
  - the object list (`HittableList`);
  - the camera's derived fields (`Camera`);
- each imperative member is proved against a function that states its result:
  - `Sphere.Hit` against `Sphere.Intersect`;
  - `HittableList.Hit` against `ListHit`;
  - `Camera.Init` against `Viewport`;
  - `Camera.Render` against `PixelColor`.

Modules, in dependency order:

| module | file | what it holds |
|---|---|---|
| `Utils` | utils.dfy | `Option`, `DblMax`, `Abs`, `Max`, `Square`, `IsSqrt`, `int()` truncation |
| `Intervals` | interval.dfy | `Interval`, `Default`, `Empty`, `Universe`, `Clamp` |
| `Vectors` | vec3.dfy | `Vec3` operators, `Dot`, `Cross`, `UnitVector`, `Reflect`, `MutableVec3` |
| `Rays` | ray.dfy | `Ray`, `At` |
| `Hittables` | hittable.dfy | `HitData`, `FaceNormal`, class `HitRecord` |
| `Spheres` | sphere.dfy | `Sphere`, `Intersect`, `Hit`, the root selection `RootIn` |
| `HittableLists` | hittable_list.dfy | `ListHit`, `IsClosestHit`, class `HittableList` |
| `Colors` | color.dfy | `FromHex`, `LinearToGamma`, `ToByte`, `PrepareColor` |
| `Materials` | material.dfy | `Material` and `Scatter` |
| `Cameras` | camera.dfy | `Viewport`, `PrimaryRay`, `RayColorOf`, `PixelColor`, class `Camera` |

Where the declarations and the bodies disagree, the model follows the bodies:

- `Camera::ray_color` is modelled as defined in src/camera.cpp:3-12. That version has
  no depth argument and does not recurse through materials, unlike the declaration at
  include/camera.hpp:23.
- `Interval::clamp` is called in include/color.hpp:31-33 but never defined. It is
  modelled as `min(max(x, min), max)`.

## Model

| member | source | states |
|---|---|---|
| `Utils.TruncToInt` | include/color.hpp:31-33 | `int(x)` truncates toward zero: for `x >= 0` the result is the largest integer not above `x`, and for negative `x` the smallest integer not below it |
| `Intervals.Interval.Clamp` | include/color.hpp:30-33 | the clamped value lies in a non-empty interval, a contained value is unchanged, and values below or above the interval go to `min` or `max` |
| `Intervals.Interval.Size` | include/interval.hpp:12 | `max - min`: negative for the empty interval (`EmptyContainsNothing`) and positive for `universe` (`UniverseContainsAllDoubles`) |
| `Intervals.Interval.Contains` | include/interval.hpp:13 | closed membership: implied by `surrounds` (`SurroundsImpliesContains`), false for every value on the empty interval and true on `universe` for every double; `Clamp` lands in it |
| `Intervals.Interval.Surrounds` | include/interval.hpp:14 | open membership: it implies `contains` and never holds at an endpoint (`SurroundsImpliesContains`); every sphere hit lies inside it (`Sphere.NearestRoot`) |
| `Intervals.SurroundsImpliesContains` | include/interval.hpp:13-14 | `surrounds` implies `contains`, and no interval surrounds its own endpoints |
| `Intervals.EmptyContainsNothing` | include/interval.hpp:10-18 | the default interval and `empty`, both `[DBL_MAX, -DBL_MAX]`, contain and surround no value and have negative `size()` |
| `Intervals.UniverseContainsAllDoubles` | include/interval.hpp:19 | `universe` contains every value in `[-DBL_MAX, DBL_MAX]` and has positive size |
| `Intervals.ClampMonotone` | include/color.hpp:31-33 | clamping preserves order |
| `Intervals.ClampIdempotent` | include/color.hpp:31-33 | clamping twice is clamping once, on every interval, empty ones included |
| `Vectors.Vec3.WithComponent` | include/vec3.hpp:24 | writing `v[i] = r` changes component `i` to `r` and leaves the other two components as they were |
| `Vectors.Vec3.Component` | include/vec3.hpp:23 | `v[i]` reads component `i`; `WithComponent` and `MutableVec3.Set` state that a write to `v[i]` changes only that component |
| `Vectors.Vec3.Neg` | include/vec3.hpp:22 | `-v`: an involution that cancels `v` (`NegInvolution`), and `cross(v, u) == -cross(u, v)` (`CrossAntiCommutative`) |
| `Vectors.Vec3.Length` | include/vec3.hpp:44 | `sqrt(length_squared())`: multiplying `unit_vector(v)` by it gives back `v` (`UnitVector`) |
| `Vectors.Vec3.NearZero` | include/vec3.hpp:61-66 | every component within `1e-8` of zero: the zero vector qualifies, and a qualifying vector has squared length below `3e-16` (`NearZeroBounds`) |
| `Vectors.Vec3.LengthSquared` | include/vec3.hpp:46 | the squared length is never negative, and it is zero exactly for the zero vector |
| `Vectors.Add` | include/vec3.hpp:79 | `u + v`: `v + (-v)` is zero (`NegInvolution`), moving along a ray adds (`AtProperties`), and `+=` stores it (`MutableVec3.AddAssign`) |
| `Vectors.Sub` | include/vec3.hpp:81 | `u - v`: `v - v` is zero (`NegInvolution`), `at(t) - origin == t * direction` (`Ray.At`), and `dot` is linear in it (`DotSubScale`) |
| `Vectors.Mul` | include/vec3.hpp:83 | the component-wise product commutes, `(1, 1, 1)` is its identity and zero absorbs it (`MulComponentwise`) |
| `Vectors.Scale` | include/vec3.hpp:85 | `t * v`: it multiplies the squared length by `t^2` (`ScaleLengthSquared`) and `dot` by `t` (`DotScale`), and `*=` stores it (`MutableVec3.MulAssign`) |
| `Vectors.ScaleRight` | include/vec3.hpp:87 | `v * t`, which the source defines as `t * v`; its properties are those of `Scale` |
| `Vectors.Div` | include/vec3.hpp:89 | `v / t` is `(1 / t) * v`, undone by multiplying by `t` (`ScaleInverse`); `/=` stores it (`MutableVec3.DivAssign`) |
| `Vectors.Dot` | include/vec3.hpp:91 | symmetric, with `dot(v, v) == length_squared(v)` (`DotSymmetric`), scaling with either argument (`DotScale`), and linear in the first (`DotSubScale`) |
| `Vectors.Reflect` | include/vec3.hpp:126 | with a unit normal, negates the normal component and keeps the length (`ReflectUnitNormal`) |
| `Vectors.ScaleLengthSquared` | include/vec3.hpp:46-85 | `length_squared(t * v) == t^2 * length_squared(v)` |
| `Vectors.DotScale` | include/vec3.hpp:85-91 | `dot(t * u, v) == t * dot(u, v) == dot(u, t * v)` |
| `Vectors.ScaleInverse` | include/vec3.hpp:85-89 | `t * (v / t) == v` for a non-zero `t` |
| `Vectors.DotSubScale` | include/vec3.hpp:81-91 | `dot(v - k * n, w) == dot(v, w) - k * dot(n, w)` |
| `Vectors.MulComponentwise` | include/vec3.hpp:83 | `u * v == v * u`, `u * (1, 1, 1) == u` and `u * 0 == 0` |
| `Vectors.Cross` | include/vec3.hpp:93-97 | `cross(u, v)` is orthogonal to both `u` and `v` |
| `Vectors.UnitVector` | include/vec3.hpp:99 | `unit_vector(v)` of a non-zero `v` has squared length 1, and `length(v)` times it gives back `v` |
| `Vectors.DotSymmetric` | include/vec3.hpp:91 | `dot` is symmetric, and `length_squared(v) == dot(v, v) >= 0` |
| `Vectors.CrossAntiCommutative` | include/vec3.hpp:93-97 | `cross(v, u) == -cross(u, v)` |
| `Vectors.NegInvolution` | include/vec3.hpp:22 | `-(-v) == v`, `v + (-v)` is the zero vector, and `v - v` is the zero vector |
| `Vectors.NearZeroBounds` | include/vec3.hpp:61-66 | the zero vector is near zero, and a near-zero vector has squared length below `3e-16` |
| `Vectors.ReflectUnitNormal` | include/vec3.hpp:126 | for a unit `n`, `dot(reflect(v, n), n) == -dot(v, n)`, and `reflect` keeps the squared length |
| `Vectors.MutableVec3.constructor` | include/vec3.hpp:16 | a fresh variable holds the given components |
| `Vectors.MutableVec3.Get` | include/vec3.hpp:23 | `v[i]` reads component `i` of the current value |
| `Vectors.MutableVec3.Set` | include/vec3.hpp:24 | writing through `v[i]` leaves the old value with component `i` replaced |
| `Vectors.MutableVec3.AddAssign` | include/vec3.hpp:26-32 | after `v += w` the variable holds the old `v + w`; only `e[0..2]` change |
| `Vectors.MutableVec3.MulAssign` | include/vec3.hpp:34-40 | after `v *= t` the variable holds `t * old v` |
| `Vectors.MutableVec3.DivAssign` | include/vec3.hpp:42 | after `v /= t` the variable holds `old v / t`, that is `(1 / t) * old v` |
| `Rays.Ray.At` | include/ray.hpp:16 | `at(t) - origin == t * direction` |
| `Rays.Ray.Origin` | include/ray.hpp:13 | the origin: `at(0) == origin()` (`AtProperties`) |
| `Rays.Ray.Direction` | include/ray.hpp:14 | the direction: `at` moves along it, and a zero direction stays at the origin (`AtProperties`); a non-zero one gives distinct points for distinct parameters (`AtInjective`) |
| `Rays.AtProperties` | include/ray.hpp:13-16 | `at(0) == origin()`, `at(s + t) == at(s) + t * direction()`, and a ray with zero direction stays at its origin |
| `Rays.AtInjective` | include/ray.hpp:16 | with a non-zero direction, distinct parameters give distinct points |
| `Hittables.FaceNormal` | include/hittable.hpp:16-20 | the pair `(front_face, normal)` that `set_face_normal` stores; what it means is stated by `FaceNormalOpposesRay` |
| `Hittables.FaceNormalOpposesRay` | include/hittable.hpp:16-20 | `front_face` holds exactly when `dot(dir, outward) < 0`. The stored normal is the outward normal or its negation, never points along the ray (`dot(dir, normal) <= 0`), and has the outward normal's length. It agrees with the outward normal on a front face and opposes it on a back face |
| `Hittables.HitRecord.constructor` | include/hittable.hpp:9-15 | a new record holds zero vectors, `t = 0` and `front_face = false` |
| `Hittables.HitRecord.SetFaceNormal` | include/hittable.hpp:16-20 | `front_face` and `normal` become the face-normal pair; `p` and `t` are unchanged |
| `Hittables.HitRecord.CopyFrom` | include/hittable.hpp:54 | `rec = temp_rec` makes the record equal to the other one |
| `Spheres.NewSphere` | include/sphere.hpp:12 | the constructor keeps the centre and stores `fmax(0, radius)`: a non-negative radius as given, a negative one as 0 |
| `Spheres.Sphere.NearestRoot` | include/sphere.hpp:25-34 | a root that is found lies strictly inside `ray_int` |
| `Spheres.Sphere.OutwardNormal` | include/sphere.hpp:38 | `(p - center) / radius`, with the zero vector where the code divides by a zero radius; `OutwardNormalUnit` states that it has length 1 on the surface of a sphere of positive radius |
| `Spheres.Sphere.RecordAt` | include/sphere.hpp:36-39 | the record `hit` fills in at parameter `t`: the point `r.at(t)` and the face-normal pair of `(p - center) / radius`. At the selected root, `IntersectOnSurface`, `IntersectNormalUnit` and `IntersectFrontFace` state its properties |
| `Spheres.Sphere.Intersect` | include/sphere.hpp:14-42 | a hit lies strictly inside the interval, at `r.at(t)`. Which hit it is is stated by `IntersectIsNearest` (the nearest surface point), `IntersectMissIsComplete` (for a non-zero direction, a miss means no surface point in the interval), `IntersectNormalUnit`, `IntersectFrontFace` and `AimedAtCenterHitsFrontFace` |
| `Spheres.Sphere.Hit` | include/sphere.hpp:14-42 | returns true exactly when there is a hit; on a hit the record holds the hit; on a miss the record is untouched |
| `Spheres.RootIn` | include/sphere.hpp:21-34 | a returned root lies strictly inside the interval |
| `Spheres.Discriminant` | include/sphere.hpp:21 | `h * h - a * c`: for `a != 0`, when it is negative the quadratic has no root (`NoRealRoot`); otherwise `(h ± sqrt(discriminant)) / a` are roots (`CandidateIsRoot`) and the only ones (`RootIsCandidate`) |
| `Spheres.OutwardNormalUnit` | include/sphere.hpp:38 | on the surface, `(p - center) / radius` has length 1 for a positive radius, and is zero for a zero radius |
| `Spheres.OnSurfaceIffRoot` | include/sphere.hpp:16-21 | `r.at(t)` lies on the sphere exactly when `t` is a root of `a t^2 - 2 h t + c` with the code's `a`, `h` and `c` |
| `Spheres.IntersectIsNearest` | include/sphere.hpp:27-37 | a hit parameter lies strictly inside the interval, its point is `r.at(t)` and lies on the surface, and no surface point inside the interval has a smaller parameter |
| `Spheres.IntersectOnSurface` | include/sphere.hpp:36-38 | a hit point satisfies `\|p - center\|^2 == radius^2` |
| `Spheres.IntersectMissIsComplete` | include/sphere.hpp:21-34 | for a non-zero direction, a miss means that no point of the ray strictly inside the interval is on the surface |
| `Spheres.IntersectNarrow` | include/sphere.hpp:28-34 | on the interval narrowed to `(lo, hi2)` the result is the hit on `(lo, hi)` when its parameter is below `hi2`, and a miss otherwise: narrowing never creates a hit |
| `Spheres.IntersectNormalUnit` | include/sphere.hpp:38-39 | the recorded normal has length 1 for a positive radius, is zero with `front_face` false for a zero radius, and never points along the ray |
| `Spheres.IntersectFrontFace` | include/sphere.hpp:38-39 | on a sphere of positive radius, `front_face` holds exactly when the ray direction opposes `p - center` (`dot(dir, p - center) < 0`) |
| `Spheres.AimedAtCenterHitsFrontFace` | include/sphere.hpp:14-39 | a ray from outside a sphere of positive radius, with direction `k * (center - origin)` for some `k > 0` and `1 / k <= DBL_MAX`, hits on `(0, DBL_MAX)`, at `t > 0` and on the front face. The bound on `1 / k` keeps the near surface point, which lies below parameter `1 / k`, inside the interval |
| `Spheres.RootInIsRoot` | include/sphere.hpp:25-34 | the selected parameter is a root of the quadratic |
| `Spheres.RootInNearest` | include/sphere.hpp:27-34 | no root strictly inside the interval is smaller than the selected one |
| `Spheres.RootInComplete` | include/sphere.hpp:21-34 | when nothing is selected, the quadratic has no root strictly inside the interval |
| `Spheres.RootInNarrow` | include/sphere.hpp:28-34 | narrowing the interval's upper end keeps a selected root below the new end and selects nothing otherwise |
| `Spheres.CandidateIsRoot` | include/sphere.hpp:21-31 | `(h - sqrtd) / a` and `(h + sqrtd) / a` are roots of the quadratic |
| `Spheres.RootIsCandidate` | include/sphere.hpp:21-31 | every root of the quadratic is one of the two candidates |
| `Spheres.NoRealRoot` | include/sphere.hpp:21-23 | a negative discriminant means the quadratic has no root |
| `HittableLists.ListHit` | include/hittable.hpp:42-59 | the closest-hit fold, as a value. A hit is reported exactly when some object is hit (`ListHitNoneIff`), and it is the closest hit with ties going to the earlier object (`ListHitIsClosest`); its normal is stated by `ListHitNormal` |
| `HittableLists.ListHitStepWide` | include/hittable.hpp:48-56 | one loop iteration, in terms of object `i`'s own hit on the whole interval: that hit replaces the result exactly when it exists and lies below the closest hit so far; otherwise the result is unchanged |
| `HittableLists.IsClosestHit` | include/hittable.hpp:46-55 | object `k` is hit at `d`, strictly nearer than every earlier object's hit and no farther than every later one's; `ClosestIsLeast` shows that `d` is the least hit parameter |
| `HittableLists.ListHitNoneIff` | include/hittable.hpp:42-58 | the list reports no hit exactly when no object is hit on the whole, un-narrowed interval |
| `HittableLists.ListHitIsClosest` | include/hittable.hpp:46-55 | a reported hit is the closest hit of some object `k`: strictly nearer than every earlier object's hit and no farther than every later one's, so ties go to the earlier object |
| `HittableLists.ClosestIsLeast` | include/hittable.hpp:50-53 | the closest hit is no farther than any object's hit on the whole interval |
| `HittableLists.ClosestExtends` | include/hittable.hpp:48-56 | appending an object that is missed, or is hit no nearer, keeps the closest hit |
| `HittableLists.ListHitNormal` | include/hittable.hpp:50-54 | the reported normal never points along the ray and has length 1, or is zero for a sphere of radius 0; the zero case exists only because the model stores a zero normal where the code computes `(p - center) / 0`, which is NaN |
| `HittableLists.HittableList.constructor` | include/hittable.hpp:36 | a new list is empty |
| `HittableLists.HittableList.Single` | include/hittable.hpp:37 | the one-object constructor holds exactly that object |
| `HittableLists.HittableList.Clear` | include/hittable.hpp:39 | `clear` empties the list |
| `HittableLists.HittableList.Add` | include/hittable.hpp:40 | `add` appends at the end and keeps the earlier objects in order |
| `HittableLists.HittableList.Hit` | include/hittable.hpp:42-59 | returns true exactly when the list has a hit, `rec` then holds the closest hit, and on a miss `rec` is untouched |
| `Colors.HexByte` | include/color.hpp:11 | `(hex >> shift) & 0xFF` is a byte value from 0 to 255 |
| `Colors.FromHex` | include/color.hpp:11 | each channel is its byte divided by 255 and lies in `[0, 1]` (`FromHexInUnitCube`), `0xRRGGBB` decodes to `(RR, GG, BB) / 255` (`FromHexOfPack`), and bits above the lowest 24 are ignored (`FromHexIgnoresHighBits`) |
| `Colors.FromHexInUnitCube` | include/color.hpp:11 | every channel of `Color(hex)` lies in `[0, 1]` and is its byte divided by 255 |
| `Colors.FromHexOfPack` | include/color.hpp:11 | `0xRRGGBB` decodes to `(RR, GG, BB) / 255` |
| `Colors.FromHexIgnoresHighBits` | include/color.hpp:11 | the bits above the lowest 24 do not change the colour |
| `Colors.LinearToGamma` | include/color.hpp:12-18 | the square root of a positive input and 0 otherwise; `LinearToGammaProperties` and `LinearToGammaUnit` state its properties |
| `Colors.LinearToGammaProperties` | include/color.hpp:12-18 | `linear_to_gamma` is never negative, squares back to a positive input, is 0 for a non-positive input, and is monotone |
| `Colors.LinearToGammaUnit` | include/color.hpp:12-18 | gamma correction maps 1 to 1 and keeps inputs up to 1 at most 1 |
| `Colors.ToByte` | include/color.hpp:30-33 | `int(256 * intensity.clamp(x))` is from 0 to 255, is 0 for `x <= 0`, and is 255 for `x >= 0.999` |
| `Colors.ToByteBucket` | include/color.hpp:30-33 | inside `[0, 0.999]` the byte is the 1/256-wide bucket holding `x`, and the byte never decreases as `x` grows |
| `Colors.PrepareColor` | include/color.hpp:19-36 | the three bytes written for a colour; `PrepareColorProperties` states its properties |
| `Colors.PrepareColorProperties` | include/color.hpp:19-36 | every output channel is a whole number from 0 to 255. Black stays 0 and white becomes 255. A non-positive channel gives 0, and a gamma value of 0.999 or more gives 255. Each channel depends only on the same input channel and never decreases as it grows |
| `Materials.Material.Scatter` | include/material.hpp:22-48 | the attenuation is the albedo and the scattered ray starts at `hit.p`. A Lambertian surface always scatters, along `normal + sample` or, if that is near zero, along the normal. A metal surface scatters along the reflected unit direction plus `fuzz * sample`, and reports success exactly when that direction has a positive dot product with the normal |
| `Materials.NewMetal` | include/material.hpp:41 | the stored fuzz is at most 1: a fuzz below 1 is kept, negative values included, and anything else is stored as 1 |
| `Materials.LambertianDirection` | include/material.hpp:24-26 | `normal + sample`, or the normal when that is near zero; `LambertianDirectionNotNearZero` and `LambertianDirectionOutward` state its properties |
| `Materials.MetalDirection` | include/material.hpp:44-45 | `reflect(unit_vector(dir), normal) + fuzz * sample`; `MetalMirror` states its properties |
| `Materials.LambertianDirectionNotNearZero` | include/material.hpp:24-26 | the direction is near zero only when it is the normal itself, so a normal that is not near zero never gives a degenerate direction |
| `Materials.LambertianDirectionOutward` | include/material.hpp:24-26 | with a unit normal and a unit sample the direction never points into the surface |
| `Materials.MetalMirror` | include/material.hpp:44-47 | with zero fuzz the direction is `reflect(unit_vector(dir), normal)`. With a unit normal that direction has length 1, and the metal scatters exactly when the incoming ray meets the normal head on (`dot(dir, normal) < 0`) |
| `Cameras.ImageHeight` | src/camera.cpp:16-17 | the image height is at least 1 |
| `Cameras.Viewport` | src/camera.cpp:19-36 | the frame `init` derives; `ViewportClosedForm`, `StepsSpanViewport` and `UpperLeftAsWritten` state its properties |
| `Cameras.UpperLeftAsWritten` | src/camera.cpp:35 | the corner `center - (0, 0, focal_length) - viewport_u / 2 - viewport_v / 2`, as the source orders it, equals the corner that `Viewport` and `Init` compute with `0.5 *` and the focal offset second |
| `Cameras.PrimaryRay` | src/camera.cpp:50-52 | the ray from the centre through pixel `(i, j)`; `PrimaryRayClosedForm` and `PixelInViewport` state its properties |
| `Cameras.NormalColor` | src/camera.cpp:6-7 | `0.5 * (normal + (1, 1, 1))`; `NormalColorInUnitCube` states its range |
| `Cameras.SkyColor` | src/camera.cpp:9-11 | the sky blend; `SkyColorBetween` states its range and its values straight up and down |
| `Cameras.RayColorOf` | src/camera.cpp:3-12 | the colour `ray_color` returns, as a value; `RayColorInUnitCube` states its range, and `Camera.RayColor` computes it |
| `Cameras.PixelColor` | src/camera.cpp:50-53 | the colour of pixel `(i, j)`: `ray_color` of its primary ray. `Camera.Render` produces it at index `j * width + i` |
| `Cameras.Columns` | src/camera.cpp:48 | how many times the inner loop `for (int i = 0; i < image_width; i++)` runs: the width, or none for a negative width. `Camera.Render` and `Camera.RenderPixels` ensure the image holds `image_height * Columns(width)` pixels |
| `Cameras.Camera.constructor` | include/camera.hpp:41-42 | a new camera has aspect ratio 16/9 and width 1280 |
| `Cameras.Camera.Init` | src/camera.cpp:14-37 | the aspect ratio and width are unchanged, and the derived fields are the viewport frame for `max(1, int(width / aspect))` rows |
| `Cameras.Camera.RayColor` | src/camera.cpp:3-12 | the colour is the normal colour of the closest hit in `(0, DBL_MAX)`, or the sky colour on a miss |
| `Cameras.Camera.Render` | src/camera.cpp:39-60 | after `init`, exactly `image_height * image_width` pixels come out in row-major order; pixel `k` is the colour of pixel `(k mod width, k div width)` |
| `Cameras.Camera.RenderPixels` | src/camera.cpp:45-57 | the nested `j`/`i` loops produce `image_height * image_width` colours, entry `j * width + i` being pixel `(i, j)` |
| `Cameras.RowMajorAppend` | src/camera.cpp:45-57 | appending pixel `(i, j)` at index `j * width + i` keeps the image in row-major order |
| `Cameras.RowMajorIndex` | src/camera.cpp:45-48 | index `j * width + i` with `0 <= i < width` names row `j` and column `i` |
| `Cameras.ViewportClosedForm` | src/camera.cpp:19-36 | the centre is the origin. The steps are `(2/h, 0, 0)` and `(0, -2/h, 0)`. Pixel (0, 0) is at `((1 - w)/h, (h - 1)/h, -1)`: the upper-left corner plus half a step each way |
| `Cameras.StepsSpanViewport` | src/camera.cpp:24-32 | `pixel_delta_u * image_width == viewport_u` and `pixel_delta_v * image_height == viewport_v` |
| `Cameras.PrimaryRayClosedForm` | src/camera.cpp:50-52 | every primary ray starts at the origin with direction `((2i + 1 - w)/h, (h - 2j - 1)/h, -1)`, which is never zero |
| `Cameras.PixelInViewport` | src/camera.cpp:50-52 | the ray through a pixel of the image passes strictly inside the viewport |
| `Cameras.NormalColorInUnitCube` | src/camera.cpp:6-7 | `0.5 * (normal + (1, 1, 1))` lies in `[0, 1]^3` when the normal's components are in `[-1, 1]` |
| `Cameras.SkyColorBetween` | src/camera.cpp:9-11 | the sky colour lies between white and `(0.5, 0.7, 1.0)`, channel by channel; it is exactly `(0.5, 0.7, 1.0)` straight up and white straight down |
| `Cameras.VerticalUnit` | src/camera.cpp:9-10 | the unit vector of a vertical direction has `y` equal to 1 or -1 |
| `Cameras.RayColorInUnitCube` | src/camera.cpp:3-12 | every colour `ray_color` returns lies in `[0, 1]^3`. For a hit this uses `ListHitNormal`, whose zero-normal case exists only because the model gives a sphere of radius 0 a zero normal where the code computes NaN |

## Left out

- Random sampling is not modelled. `Vec3::random`, `random_gaussian`, `random_in_unit_sphere`, `random_unit_vector` and `random_on_hemisphere` depend on an undefined `utils::random_double`. The sample that `scatter` draws is a parameter instead.
- IEEE-754 rounding, overflow, infinities and NaN are not modelled: doubles are exact reals. The consequences:
  - a ray with zero direction (`a = 0`) divides by zero in the code, and the resulting NaN or infinite roots are never strictly inside an interval; the model returns no root for `a = 0` directly, so both miss;
  - a sphere of radius 0 gives a NaN normal in the code and a zero normal in the model (`front_face` is false in both).
- `std::sqrt` is a parameter satisfying `IsSqrt`, not a computed function.
- `fmin`, `M_PI` and `degrees_to_radians` are not used by the modelled code.
- `refract` is not modelled; no material in the code uses it.
- Stream output is not modelled: `operator<<`, the PPM header, `write_color` (which is not defined anywhere) and the progress messages of `render`. `Camera.Render` returns the pixel colours in the order they would be written.
- The tiled, multithreaded scheduler (`task_t`, `create_tasks`, `render_block`) is declared without bodies. It is not modelled.
- These header declarations have no bodies and are not modelled: `get_ray`, `sample_square`, `dof_disk_sample`, the `u, v, w` basis, `pixel_samples_scale`, and the depth, field-of-view, look-from and defocus fields.
- `shared_ptr` ownership and virtual dispatch are not modelled. A `HittableList` holds a sequence of sphere values, and `Material` is a datatype with one variant per class.
- The `mat` member of `hit_record_t` is not modelled; `Sphere::hit` never assigns it.
- The scene set-up in src/main.cpp is not part of this model.
- Camera.constructor: `image_height` is left uninitialised by the code and is 0 here. The other derived fields start as zero vectors.
- Hittables.HitRecord.constructor: `t` and `front_face` are left uninitialised by the code and start as `0.0` and `false` here.
- Vectors.UnitVector: requires a non-zero vector, because the code divides by a zero length there.
- Cameras.Camera.RayColor: requires a non-zero ray direction, for the same reason. Every primary ray satisfies this (`PrimaryRayClosedForm`).
- Materials.Material.Scatter: requires a non-zero incoming direction for a metal surface, for the same reason.
- Vectors.Div: a zero divisor is excluded by a precondition. The model divides only by the image width (see the next line), the image height (at least 1), a non-zero length, a positive radius, 2, and whatever non-zero `t` a caller passes to `MutableVec3.DivAssign`.
- Cameras.Camera.Init / Cameras.Camera.Render: require `imageWidth != 0` and `aspectRatio != 0.0`. The code never checks these public fields. A width of 0 makes `pixel_delta_u` the NaN vector `(0, 0, 0) / 0` and the image empty. An aspect ratio of 0 makes `image_width / aspect_ratio` infinite, and its conversion to `int` undefined.
- Cameras.ImageHeight: `int(width / aspect)` is taken as exact truncation, without the undefined behaviour C++ has when the quotient does not fit an `int`.
- Cameras.Camera.Init: `init`'s body and `Viewport` both write `edge / 2` as `0.5 * edge` and subtract the focal offset after the horizontal half edge; `Viewport` also writes the downward edge with its value `-2`. The source defines `v / 2` as `(1 / 2) * v` (include/vec3.hpp:89), and each component of the reordered corner subtracts the same single non-zero term, so the corner is the same, in floating point too. `UpperLeftAsWritten` proves the equality over the reals.
- Cameras.Camera.Render: modelled as `Init` followed by `RenderPixels`, which holds the two loops.
- Vectors.MutableVec3.Get: the const and non-const `operator[]` with an index outside 0..2 is undefined behaviour in the code and is excluded by a precondition.
