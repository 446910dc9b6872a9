# common-core-geometry, modelled in Dafny

A model of the core of `common-core-geometry`: a small 3D geometry kernel, and the properties proved about it. The kernel provides:

- value primitives: `Vector3D`, `Point3D`, `Ray`, `LineSegment`, `Plane`, `Triangle`, `Sphere` and `AABB`, together with their checked constructors and their `GeometryError` messages;
- operations on them: Manhattan and Chebyshev distances, the six intersection routines, and the `Transformable` translate and scale laws;
- a small SVG scene builder: a camera with view and projection matrices, 4×4 projection arithmetic, and an `SVGRenderer`. The renderer appends `circle`, `line` and `polygon` elements and serialises them to an SVG document (SVG 1.1, chapter 9, Basic Shapes).

The model is written over `real`: every `f64` is an exact real, and `EPSILON` is 1e-10. The functions the kernel takes from the platform are parameters of the model:

- `sqrt` (magnitude, normalisation, distance, the ray–sphere discriminant);
- `tan`;
- `acos`;
- the `{:.2}` number formatting.

Where a proof needs a law of one of these, the law is a hypothesis. For example, `Float.SqrtAt(sqrt, x)` says that `sqrt` is exact at `x`. `PI` is the exact decimal value of the `f64` constant.

Each source file is one module:

| module | source |
|---|---|
| `Float` | `float.rs` |
| `Errors` | `error.rs` |
| `Vectors` | `vector.rs` |
| `Points` | `point.rs` |
| `Rays` | `ray.rs` |
| `Segments` | `line_segment.rs` |
| `Planes` | `plane.rs` |
| `Triangles` | `triangle.rs` |
| `Spheres` | `sphere.rs` |
| `Boxes` | `aabb.rs` |
| `Distances` | `distance.rs` |
| `Intersections` | `intersection.rs` |
| `Transforms` | `transform.rs` |
| `Cameras` | `camera.rs` |
| `Projection` | `projection.rs` |
| `Rendering` | `renderer.rs` |

In addition:

- `Matrices` holds the `[f64; 4]` and `[[f64; 4]; 4]` types.
- `Text` holds the string operations the SVG output needs: `join`, decimal formatting of `usize`, and `contains`.

The model follows the source's own form:

- Pure code is pure: datatypes, functions and lemmas.
- Three loops of the source are methods with loop invariants, each proved against a recursive specification function:
  - `AABB::from_points`: `Boxes.FromPoints`;
  - the slab loop of `ray_aabb_intersection`: `Intersections.RayAabb`;
  - `multiply_matrices`: `Projection.MultiplyMatrices`.
- The renderer is a class whose `background` and `elements` fields are changed by the `add_*` methods and `set_background`.

A `Result` with a `GeometryError` models a constructor that returns `Err`. A panic of an `expect` or `unwrap` on a degenerate result is a precondition: every transform requires exactly the condition its constructor checks, and a lemma says when that condition holds.

## Model

| member | source | states |
|---|---|---|
| Float.Clamp | src/utils/float.rs:14-22 | the result lies in `[min, max]` when `min <= max`, is the value itself when the value is inside, is `min` whenever the value is below `min` (the lower bound is compared first), and is `max` whenever the value is not below `min` but above `max` |
| Float.ApproxEqIff | src/utils/float.rs:4-6 | `approx_eq(a, b)` holds exactly when `a - b` lies strictly between `-EPSILON` and `EPSILON`, and it is symmetric |
| Float.ApproxZeroExamples | src/utils/float.rs:38-50 | the test values: 0 and `EPSILON / 2` are approximately zero, `2 * EPSILON` is not; `1 + EPSILON / 2` is approximately 1, `1 + 2 * EPSILON` is not |
| Float.ClampExamples | src/utils/float.rs:52-57 | clamping 5, -5 and 15 into `[0, 10]` gives 5, 0 and 10 |
| Float.AngleRoundTrip | src/utils/float.rs:24-32 | degrees-to-radians and radians-to-degrees undo each other, and 180 degrees is `PI` radians |
| Errors.Display | crates/core/src/error.rs:12-32 | the displayed text is the kind's fixed prefix followed by the message, nothing else |
| Errors.PrefixesDistinguish | crates/core/src/error.rs:14-30 | the prefixes of two different kinds differ at some position within both |
| Errors.DisplayInjective | crates/core/src/error.rs:12-32 | two errors that display the same text are the same error (same kind, same message) |
| Errors.DisplayExamples | crates/core/src/error.rs:14-30 | the text of each of the five kinds |
| Vectors.MagnitudeSquaredZero | src/primitives/vector.rs:68-71 | the squared magnitude is zero exactly for the zero vector |
| Vectors.MagnitudeSquaredPositive | src/primitives/vector.rs:68-71 | every non-zero vector has a positive squared magnitude |
| Vectors.MagnitudeSquared | src/primitives/vector.rs:69-71 | the squared magnitude is never negative |
| Vectors.Magnitude | src/primitives/vector.rs:64-66 | a definition without a contract of its own: the platform square root of the squared magnitude; Vectors.NormalizeIsUnit and Vectors.MagnitudeExample state what it gives under an exact square root |
| Vectors.Normalize | src/primitives/vector.rs:73-85 | normalising fails, with a division-by-zero error, exactly when the magnitude is approximately zero; otherwise the result scaled by the magnitude is the original vector |
| Vectors.NormalizeIsUnit | src/primitives/vector.rs:73-85 | with an exact square root, a successful normalisation has magnitude 1 |
| Vectors.NormalizeFailsIffShort | src/primitives/vector.rs:73-85 | with an exact square root, normalising fails exactly when the squared magnitude is below `EPSILON` squared |
| Vectors.NormalizeKeepsUnit | src/primitives/vector.rs:73-85 | a vector of squared magnitude 1 normalises to itself |
| Vectors.Dot | src/primitives/vector.rs:88-90 | a definition without a contract of its own: the sum of the componentwise products; Vectors.DotSymmetric states that it is symmetric |
| Vectors.Cross | src/primitives/vector.rs:93-99 | a definition without a contract of its own: the right-handed cross product; Vectors.CrossOrthogonal, Vectors.CrossAntisymmetric and Vectors.UnitCrossProducts state its properties |
| Vectors.CrossOrthogonal | src/primitives/vector.rs:92-99 | the cross product is orthogonal to both arguments |
| Vectors.CrossAntisymmetric | src/primitives/vector.rs:92-99 | swapping the arguments negates the cross product, and a vector crossed with itself is zero |
| Vectors.DotSymmetric | src/primitives/vector.rs:87-90 | the dot product is symmetric, and a vector's dot product with itself is its squared magnitude |
| Vectors.AngleCosine | src/primitives/vector.rs:101-108 | the cosine handed to `acos` lies in `[-1, 1]` |
| Vectors.Angle | src/primitives/vector.rs:101-108 | the angle is 0 when the product of the magnitudes is approximately zero, and `acos` of the clamped normalised dot product otherwise |
| Vectors.ProjectOnto | src/primitives/vector.rs:110-117 | a definition without a contract of its own: zero for an approximately zero `other`, otherwise `other` scaled by `(v·other)/|other|²`; Vectors.ProjectOntoSpec states that the result is a multiple of `other` leaving a residual orthogonal to it |
| Vectors.ProjectOntoSpec | src/primitives/vector.rs:110-117 | the projection onto an approximately zero vector is zero; otherwise it is a multiple of `other` whose difference from `v` is orthogonal to `other` |
| Vectors.ResidualOrthogonal | src/primitives/vector.rs:115-116 | the projection scalar `dot / |other|^2` leaves a residual orthogonal to `other` |
| Vectors.ParallelToMultiple | src/primitives/vector.rs:119-123 | a vector is parallel to every multiple of itself (the cross product is exactly zero) |
| Vectors.IsParallel | src/primitives/vector.rs:120-123 | a definition without a contract of its own: the cross product has squared magnitude within `EPSILON` of zero; Vectors.ParallelToMultiple and Vectors.ParallelExample state that multiples pass the test |
| Vectors.IsPerpendicular | src/primitives/vector.rs:126-128 | a definition without a contract of its own: the dot product is within `EPSILON` of zero; Vectors.UnitPerpendicular states that the x and y axes pass the test |
| Vectors.Add | src/primitives/vector.rs:140-146 | a definition without a contract of its own: the componentwise sum; Vectors.ArithmeticLaws states that it undoes `Sub` and that a vector plus its negation is zero |
| Vectors.Sub | src/primitives/vector.rs:152-158 | a definition without a contract of its own: the componentwise difference; Vectors.ArithmeticLaws states that a vector minus itself is zero and that `Add` undoes it |
| Vectors.Scale | src/primitives/vector.rs:164-170 | a definition without a contract of its own: every component multiplied by the scalar; Vectors.ScaledMagnitude states that it scales the squared magnitude by the square of the scalar, and Vectors.ArithmeticLaws that `Div` undoes it |
| Vectors.Neg | src/primitives/vector.rs:188-194 | a definition without a contract of its own: every component negated; Vectors.ArithmeticLaws states that it undoes itself and that a vector plus its negation is zero |
| Vectors.ScaledMagnitude | src/primitives/vector.rs:161-171 | scaling by `s` multiplies the squared magnitude by `s * s` |
| Vectors.Div | src/primitives/vector.rs:173-183 | dividing by a non-zero `s` is undone by scaling by `s` |
| Vectors.ArithmeticLaws | src/primitives/vector.rs:137-195 | `a - a` is zero, negation is an involution, `(a - b) + b == a`, `a + (-a)` is zero, and dividing `a * s` by a non-zero `s` gives `a` |
| Vectors.ApproxEqualReflexiveSymmetric | src/primitives/vector.rs:131-135 | approximate equality is reflexive and symmetric |
| Vectors.MagnitudeExample | src/primitives/vector.rs:216-220 | with an exact square root, the magnitude of (3, 4, 0) is 5 |
| Vectors.UnitCrossProducts | src/primitives/vector.rs:236-242 | x cross y is z, y cross z is x, z cross x is y |
| Vectors.UnitPerpendicular | src/primitives/vector.rs:251-256 | the unit x and y vectors are perpendicular |
| Vectors.ParallelExample | src/primitives/vector.rs:244-249 | (1, 2, 3) is parallel to (2, 4, 6) |
| Points.DistanceSquaredIsMagnitude | crates/core/src/primitives/point.rs:31-37 | the squared distance is the squared magnitude of the difference, and it is symmetric |
| Points.DistanceSquaredTo | crates/core/src/primitives/point.rs:32-37 | the squared distance is never negative |
| Points.DistanceTo | crates/core/src/primitives/point.rs:27-29 | a definition without a contract of its own: the platform square root of the squared distance; Points.DistanceToSelf and Points.DistanceExample state what it gives under an exact square root |
| Points.DistanceSquaredZero | crates/core/src/primitives/point.rs:31-37 | the squared distance is zero exactly when the two points are the same |
| Points.MinusZero | crates/core/src/primitives/point.rs:76-86 | the difference of two points is the zero vector exactly when they are the same |
| Points.DistanceToSelf | crates/core/src/primitives/point.rs:26-29 | with an exact square root, a point is at distance 0 from itself |
| Points.DistanceExample | crates/core/src/primitives/point.rs:106-111 | with an exact square root, the origin is at distance 5 from (3, 4, 0) |
| Points.MidpointHalfway | crates/core/src/primitives/point.rs:39-46 | the midpoint is a quarter of the squared distance from each end, does not depend on the order of the ends, and is the point itself for equal ends |
| Points.Midpoint | crates/core/src/primitives/point.rs:40-46 | the offset from the first point to the midpoint equals the offset from the midpoint to the second point |
| Points.MidpointExample | crates/core/src/primitives/point.rs:113-119 | the midpoint of the origin and (2, 4, 6) is (1, 2, 3) |
| Points.FromPoints | src/primitives/vector.rs:54-61 | `from` translated by the vector from `from` to `to` is `to` |
| Points.Translate | crates/core/src/primitives/point.rs:49-73 | a definition without a contract of its own: each coordinate moved by the vector, as `translate` and `Add<Vector3D>` do; Points.TranslateMinusRoundTrip states that `Minus` undoes it |
| Points.Minus | crates/core/src/primitives/point.rs:79-85 | a definition without a contract of its own: the componentwise difference, the vector from the second point to the first; Points.TranslateMinusRoundTrip and Points.MinusZero state its properties |
| Points.TranslateMinusRoundTrip | crates/core/src/primitives/point.rs:48-86 | translating by a difference lands on the other point; the difference of a translate and its start is the vector; translating back by the negated vector returns the start |
| Points.TranslatePreservesDistance | crates/core/src/primitives/point.rs:48-55 | translating two points by the same vector keeps their squared distance |
| Points.ApproxEqualReflexiveSymmetric | crates/core/src/primitives/point.rs:58-62 | approximate equality is reflexive and symmetric |
| Rays.New | src/primitives/ray.rs:11-17 | construction fails exactly when normalising the direction fails, with a division-by-zero error; otherwise it keeps the origin and stores the normalised direction |
| Rays.NewHasUnitDirection | src/primitives/ray.rs:11-17 | with an exact square root, a constructed ray's direction has squared magnitude 1 |
| Rays.NewFailsIffShort | src/primitives/ray.rs:11-17 | with an exact square root, construction fails exactly for a direction whose squared magnitude is below `EPSILON` squared |
| Rays.NewKeepsUnitDirection | src/primitives/ray.rs:40-48 | a direction of squared magnitude 1 is stored unchanged |
| Rays.ZeroDirectionFails | src/primitives/ray.rs:77-84 | the zero direction is refused |
| Rays.NewNormalizesExample | src/primitives/ray.rs:50-59 | direction (3, 4, 0) is stored as (0.6, 0.8, 0) |
| Rays.EqualityIgnoresDirectionLength | src/primitives/ray.rs:86-91 | rays from the origin along (1, 0, 0) and (2, 0, 0) are the same ray |
| Rays.PointAtExamples | src/primitives/ray.rs:61-75 | along the x axis from (1, 2, 3), parameters 0, 5 and -2 give (1, 2, 3), (6, 2, 3) and (-1, 2, 3) |
| Rays.PointAt | src/primitives/ray.rs:20-26 | a definition without a contract of its own: the origin plus the direction scaled by `t`; Rays.PointAtDistance states that along a unit direction `t` is the distance travelled |
| Rays.PointAtDistance | src/primitives/ray.rs:19-26 | along a unit direction the parameter is the distance travelled: the squared distance from the origin is `t * t` |
| Spheres.New | crates/core/src/primitives/sphere.rs:14-21 | construction succeeds exactly for a positive radius, keeping center and radius; otherwise it is an invalid-construction error |
| Spheres.NewExamples | crates/core/src/primitives/sphere.rs:54-65 | radius 5 is accepted as given; radii 0 and -1 are refused |
| Spheres.Volume | crates/core/src/primitives/sphere.rs:24-26 | a definition without a contract of its own: `(4/3) PI r³`; Spheres.VolumeAndAreaScale states that it is positive and scales by `k³` |
| Spheres.SurfaceArea | crates/core/src/primitives/sphere.rs:29-31 | a definition without a contract of its own: `4 PI r²`; Spheres.VolumeAndAreaScale states that it is positive and scales by `k²` |
| Spheres.ContainsPoint | crates/core/src/primitives/sphere.rs:34-36 | a definition without a contract of its own: the squared center distance is at most the squared radius, so the surface is included; Spheres.CenterContained and Spheres.DistanceZeroIffContained state its properties |
| Spheres.DistanceToPoint | crates/core/src/primitives/sphere.rs:38-41 | the surface distance is never negative and is either 0 or the center distance minus the radius |
| Spheres.DistanceZeroIffContained | crates/core/src/primitives/sphere.rs:33-41 | with an exact square root, a point of a valid sphere is at surface distance 0 exactly when the sphere contains it |
| Spheres.DistanceOutside | crates/core/src/primitives/sphere.rs:38-41 | outside a valid sphere the surface distance is the center distance minus the radius, and it is positive |
| Spheres.CenterContained | crates/core/src/primitives/sphere.rs:33-36 | a sphere contains its center |
| Spheres.ContainsExamples | crates/core/src/primitives/sphere.rs:81-86 | the radius-5 sphere at the origin contains (3, 0, 0) and the surface point (5, 0, 0), but not (6, 0, 0) |
| Spheres.VolumeAndAreaOfUnitSphere | crates/core/src/primitives/sphere.rs:67-79 | the unit sphere has volume `4/3 * PI` and surface area `4 * PI` |
| Spheres.VolumeAndAreaScale | crates/core/src/primitives/sphere.rs:23-31 | a valid sphere has positive volume and area, and scaling the radius by `k` scales them by `k^3` and `k^2` |
| Planes.New | src/primitives/plane.rs:12-18 | construction fails exactly when normalising the normal fails, with a division-by-zero error; otherwise it stores the normalised normal and the given `d` |
| Planes.FromPointNormal | src/primitives/plane.rs:20-27 | fails exactly when normalising the normal fails; otherwise the stored normal is the normalised one |
| Planes.FromThreePoints | src/primitives/plane.rs:29-45 | collinear points (a cross product of squared magnitude within `EPSILON` of zero) are a degenerate case; other points give the plane through the first point with the cross product as normal |
| Planes.DistanceFromPointOnPlane | src/primitives/plane.rs:20-27 | the signed distance of a point-normal plane is the unit normal's dot product with the offset from the defining point |
| Planes.DistanceToPoint | src/primitives/plane.rs:48-50 | a definition without a contract of its own: the signed distance `n · p + d`; Planes.DistanceFromPointOnPlane and Planes.ClosestPointOnPlane state its meaning for planes with a unit normal |
| Planes.FromPointNormalContainsPoint | src/primitives/plane.rs:88-94 | the defining point lies on the plane at signed distance exactly 0 |
| Planes.FromThreePointsContainsPoints | src/primitives/plane.rs:96-105 | the plane through three non-collinear points has all three at signed distance exactly 0 |
| Planes.FromThreePointsSucceeds | src/primitives/plane.rs:29-45 | with a square root exact at the normal's squared magnitude, three points give a plane exactly when they are not collinear |
| Planes.CollinearPointsFail | src/primitives/plane.rs:114-120 | (0, 0, 0), (1, 0, 0), (2, 0, 0) are refused |
| Planes.ClosestPointOnPlane | src/primitives/plane.rs:52-57 | with a unit normal, the closest point lies on the plane and the offset to it is parallel to the normal |
| Planes.ClosestPointOffset | src/primitives/plane.rs:52-57 | the closest point is the point moved back along the normal by its signed distance |
| Planes.ClosestPoint | src/primitives/plane.rs:53-57 | a definition without a contract of its own: the point moved against the normal by its signed distance; Planes.ClosestPointOnPlane and Planes.ClosestPointOffset state that it lies on the plane and differs from the point along the normal |
| Planes.ContainsPoint | src/primitives/plane.rs:60-62 | a definition without a contract of its own: the signed distance is within `EPSILON` of zero; Planes.FlipNormalNegatesDistance states that flipping keeps it |
| Planes.FromPointNormalUnit | src/primitives/plane.rs:20-27 | with an exact square root, a constructed plane has a unit normal |
| Planes.FromPointNormalKeepsUnitNormal | src/primitives/plane.rs:20-27 | a unit normal is stored unchanged, with `d = -(n · point)` |
| Planes.FlipNormalNegatesDistance | src/primitives/plane.rs:64-70 | flipping negates every signed distance, keeps containment, and undoes itself |
| Planes.FlipNormalParallel | src/primitives/plane.rs:64-75 | a flipped plane is parallel to the original |
| Planes.FlipNormal | src/primitives/plane.rs:65-70 | a definition without a contract of its own: the normal and `d` negated; Planes.FlipNormalNegatesDistance and Planes.FlipNormalParallel state that it negates signed distances, keeps containment, undoes itself and stays parallel |
| Planes.IsParallel | src/primitives/plane.rs:73-75 | a definition without a contract of its own: the parallel test on the two normals; Planes.FlipNormalParallel states that a flipped plane passes it |
| Planes.DistanceExample | src/primitives/plane.rs:107-112 | the plane through the origin with normal z is at signed distance 5 from (0, 0, 5) |
| Boxes.New | src/primitives/aabb.rs:11-18 | construction succeeds exactly when `min < max` on all three axes, keeping the corners; otherwise it is an invalid-construction error |
| Boxes.FromPoints | src/primitives/aabb.rs:20-46 | the one-pass loop returns exactly `FromPointsSpec`: an invalid-parameter error for the empty list, a degenerate-case error when the componentwise minimum and maximum are approximately equal, the box of the two otherwise |
| Boxes.LowerIsMinimum | src/primitives/aabb.rs:27-37 | the running minimum is at most every point on every axis and is attained on each axis by some point |
| Boxes.UpperIsMaximum | src/primitives/aabb.rs:27-37 | the running maximum is at least every point on every axis and is attained on each axis by some point |
| Boxes.FromPointsContainsAll | src/primitives/aabb.rs:20-46 | the errors are exactly the empty list and coincident extremes; a returned box has `min <= max` and contains every point of the list |
| Boxes.FromPointsIdentical | src/primitives/aabb.rs:39-43 | three copies of one point give a degenerate-case error |
| Boxes.FromPointsExample | src/primitives/aabb.rs:166-176 | the test points give the box from (-1, 0, 0) to (1, 2, 3) |
| Boxes.FromPointsMayBeFlat | src/primitives/aabb.rs:39-45 | points in one z-plane give a box flat on z that `new` would refuse |
| Boxes.NewExamples | src/primitives/aabb.rs:154-164 | the unit box is accepted as given; a box with `min.x > max.x` is refused |
| Boxes.Center | src/primitives/aabb.rs:49-51 | the offset from the minimum corner to the center equals the offset from the center to the maximum corner |
| Boxes.Size | src/primitives/aabb.rs:54-56 | the size is the vector that moves the minimum corner onto the maximum corner |
| Boxes.Volume | src/primitives/aabb.rs:59-62 | an ordered box has non-negative volume |
| Boxes.SurfaceArea | src/primitives/aabb.rs:65-68 | an ordered box has non-negative surface area |
| Boxes.ContainsPoint | src/primitives/aabb.rs:76-83 | a box contains a point only when it is ordered (every face is inclusive) |
| Boxes.Intersects | src/primitives/aabb.rs:86-93 | boxes that share a point pass the test, and ordered boxes that pass it share the corner made of the larger minimum coordinates |
| Boxes.Union | src/primitives/aabb.rs:96-109 | the union is ordered as soon as one of the two boxes is |
| Boxes.ExpandByPoint | src/primitives/aabb.rs:112-125 | the expanded box is ordered whatever the box was |
| Boxes.ExpandByScalar | src/primitives/aabb.rs:128-141 | expanding keeps the center and lengthens every side by twice the amount |
| Boxes.DiagonalIsSizeMagnitude | src/primitives/aabb.rs:71-73 | the diagonal is the magnitude of the size vector |
| Boxes.CenterContained | src/primitives/aabb.rs:48-83 | a box with `min <= max` contains its corners and its center, and its size is non-negative |
| Boxes.VolumePositive | src/primitives/aabb.rs:58-68 | a box built by `new` has positive volume and surface area |
| Boxes.VolumeExample | src/primitives/aabb.rs:178-188 | the box to (2, 3, 4) has volume 24; the box to (2, 2, 2) has center (1, 1, 1) |
| Boxes.ContainsExamples | src/primitives/aabb.rs:190-195 | the unit box contains (0.5, 0.5, 0.5) but not (2, 0.5, 0.5) |
| Boxes.IntersectsSymmetric | src/primitives/aabb.rs:85-93 | overlap is symmetric, an ordered box overlaps itself, and two boxes sharing a point overlap |
| Boxes.IntersectsExamples | src/primitives/aabb.rs:197-204 | the test boxes: overlapping, apart, and touching on a face (inclusive) |
| Boxes.UnionContainsBoth | src/primitives/aabb.rs:95-109 | the union contains every point of either box and the corners of each ordered box, and is ordered when either box is |
| Boxes.ExpandByPointContains | src/primitives/aabb.rs:111-125 | the expanded box contains the point and everything the box contained, and is always ordered |
| Boxes.ExpandByScalarLaws | src/primitives/aabb.rs:127-141 | a non-negative amount keeps the box ordered and keeps every contained point; expanding by `-amount` undoes expanding by `amount` |
| Boxes.ExpandByScalarInverts | src/primitives/aabb.rs:127-141 | a negative amount can invert a box: the unit box expanded by -1 is not ordered |
| Triangles.New | crates/core/src/primitives/triangle.rs:13-25 | construction fails exactly on collinear vertices (edge cross product of squared magnitude within `EPSILON` of zero), as a degenerate case; otherwise it keeps the vertices |
| Triangles.CollinearRejected | crates/core/src/primitives/triangle.rs:13-25 | both directions of `New`'s test, stated through `Collinear` |
| Triangles.ZeroCrossCollinear | crates/core/src/primitives/triangle.rs:14-18 | vertices whose edge cross product is zero are collinear |
| Triangles.UnitCrossNotCollinear | crates/core/src/primitives/triangle.rs:14-18 | vertices whose edge cross product is a unit vector are not collinear |
| Triangles.NewAcceptsExample | crates/core/src/primitives/triangle.rs:120-129 | the right triangle (0,0,0), (1,0,0), (0,1,0) is accepted as given |
| Triangles.NewRejectsCollinearExample | crates/core/src/primitives/triangle.rs:131-139 | (0,0,0), (1,0,0), (2,0,0) are refused as a degenerate case |
| Triangles.Normal | crates/core/src/primitives/triangle.rs:27-32 | the normal is the normalised edge cross product, or the unit z vector when that cannot be normalised |
| Triangles.NormalIsUnitAndOrthogonal | crates/core/src/primitives/triangle.rs:28-32 | for vertices `new` accepts and an exact square root, the normal has squared magnitude 1 and is orthogonal to both edges `b - a` and `c - a` |
| Triangles.Area | crates/core/src/primitives/triangle.rs:35-39 | a definition without a contract of its own: half the magnitude of the edge cross product; Triangles.AreaIsHalfCross and Triangles.AreaExample state its value under an exact square root |
| Triangles.AreaIsHalfCross | crates/core/src/primitives/triangle.rs:34-39 | with a square root exact at the cross product's squared magnitude, the area is half the cross product's length |
| Triangles.AreaExample | crates/core/src/primitives/triangle.rs:141-150 | the right triangle with legs of length 2 has area 2 |
| Triangles.CentroidIsAverage | crates/core/src/primitives/triangle.rs:41-48 | the centroid is `a + (b - a)/3 + (c - a)/3`, and rotating the vertices keeps it |
| Triangles.Centroid | crates/core/src/primitives/triangle.rs:42-48 | a definition without a contract of its own: the coordinatewise mean of the vertices; Triangles.CentroidIsAverage states that it is `a + (b - a)/3 + (c - a)/3` and is kept when the vertices are rotated |
| Triangles.CentroidExample | crates/core/src/primitives/triangle.rs:152-161 | the triangle (0,0,0), (3,0,0), (0,3,0) has centroid (1, 1, 0) |
| Triangles.ToPlane | crates/core/src/primitives/triangle.rs:50-53 | for vertices that `new` accepts, the supporting plane is the successful result of `from_three_points` |
| Triangles.BoundingBox | crates/core/src/primitives/triangle.rs:55-73 | the box always passes the strict check of `AABB::new`, so the second unwrap never fails |
| Triangles.BarycentricCoords | crates/core/src/primitives/triangle.rs:75-97 | a definition without a contract of its own: Cramer's rule on the Gram system of the edges, `(1, 0, 0)` for an approximately zero determinant; Triangles.BarycentricSumsToOne and Triangles.BarycentricRecoversCombination state that the coordinates sum to 1 and recover `(1 - v - w, v, w)` from `a + v (b - a) + w (c - a)` |
| Triangles.BoundingBoxContainsVertices | crates/core/src/primitives/triangle.rs:55-73 | the box contains all three vertices, always passes `AABB::new`'s check (so the second unwrap cannot fail), and is the tight box when that is valid |
| Triangles.BoundingBoxPadsFlat | crates/core/src/primitives/triangle.rs:66-72 | a triangle in the plane z = 0 gets the tight bounds padded by 0.001 on every side |
| Triangles.BarycentricSumsToOne | crates/core/src/primitives/triangle.rs:75-97 | the coordinates always sum to 1, and are (1, 0, 0) when the Gram determinant is approximately zero |
| Triangles.SolveGram | crates/core/src/primitives/triangle.rs:86-96 | Cramer's rule solves the Gram system: right-hand sides built from `v`, `w` give back `(1 - v - w, v, w)` |
| Triangles.BarycentricRecoversCombination | crates/core/src/primitives/triangle.rs:75-97 | when the Gram determinant is not approximately zero, the coordinates of `a + v (b - a) + w (c - a)` are `(1 - v - w, v, w)` |
| Triangles.BarycentricOfA | crates/core/src/primitives/triangle.rs:75-97 | vertex `a` has coordinates (1, 0, 0) |
| Triangles.BarycentricOfB | crates/core/src/primitives/triangle.rs:75-97 | vertex `b` has coordinates (0, 1, 0) when the Gram determinant is not approximately zero |
| Triangles.BarycentricOfC | crates/core/src/primitives/triangle.rs:75-97 | vertex `c` has coordinates (0, 0, 1) when the Gram determinant is not approximately zero |
| Triangles.Lagrange | crates/core/src/primitives/triangle.rs:80-86 | Lagrange's identity: the Gram determinant `|x|^2 |y|^2 - (x·y)^2` is `|x × y|^2` |
| Triangles.GramIsCrossMagnitude | crates/core/src/primitives/triangle.rs:80-86 | the barycentric denominator is the squared magnitude of the edge cross product |
| Triangles.GramOfNonCollinear | crates/core/src/primitives/triangle.rs:13-25 | a triangle `new` accepts has a barycentric denominator that is not approximately zero, so the coordinates are always solved |
| Triangles.OffPlaneNotContained | crates/core/src/primitives/triangle.rs:99-107 | a point off the supporting plane is never contained |
| Triangles.ContainsPoint | crates/core/src/primitives/triangle.rs:99-107 | a definition without a contract of its own: on the supporting plane and every barycentric coordinate non-negative; Triangles.OffPlaneNotContained and Triangles.VerticesContained state that points off the plane are rejected and the vertices accepted |
| Triangles.VerticesContained | crates/core/src/primitives/triangle.rs:99-107 | every vertex of a triangle `new` accepts is contained in it |
| Segments.New | crates/core/src/primitives/line_segment.rs:12-19 | construction succeeds exactly when the endpoints are not approximately equal, keeping them; otherwise it is a degenerate-case error |
| Segments.Length | crates/core/src/primitives/line_segment.rs:22-24 | a definition without a contract of its own: the distance between the endpoints; Segments.LengthExample states its value under an exact square root |
| Segments.Direction | crates/core/src/primitives/line_segment.rs:27-29 | the direction is the vector that moves the start onto the end |
| Segments.SegmentMidpoint | crates/core/src/primitives/line_segment.rs:32-34 | the midpoint is the point at parameter one half |
| Segments.PointAt | crates/core/src/primitives/line_segment.rs:37-40 | a definition without a contract of its own: the start plus the direction scaled by `t`; Segments.PointAtEnds and Segments.DistanceAlongSegment state that 0 and 1 give the endpoints and how the distance varies with `t` |
| Segments.NewExamples | crates/core/src/primitives/line_segment.rs:74-87 | (0,0,0) to (1,0,0) is accepted; a segment from a point to itself is refused |
| Segments.ClosestParameter | crates/core/src/primitives/line_segment.rs:42-55 | the parameter of the closest point always lies in `[0, 1]` |
| Segments.ClosestPoint | crates/core/src/primitives/line_segment.rs:42-55 | the closest point is a point of the segment, at some parameter in `[0, 1]` |
| Segments.DistanceToPoint | crates/core/src/primitives/line_segment.rs:58-61 | a definition without a contract of its own: the distance to the closest point; Segments.DistanceToPointIsMinimal states that it is the least distance to any point of the segment |
| Segments.PointAtEnds | crates/core/src/primitives/line_segment.rs:36-40 | parameter 0 gives the start, 1 the end, and 0.5 the midpoint |
| Segments.DistanceAlongSegment | crates/core/src/primitives/line_segment.rs:36-48 | the squared distance from a point to `start + t * direction` is the quadratic `|w|^2 - 2 t (w·d) + t^2 |d|^2` in `t` |
| Segments.MagnitudeAlong | crates/core/src/primitives/line_segment.rs:42-55 | the squared length of `w - t d` is `|w|^2 - 2 t (w·d) + t^2 |d|^2` |
| Segments.QuadraticDifference | crates/core/src/primitives/line_segment.rs:42-55 | the difference of the quadratic at two parameters factors as `(t - c)((t + c)|d|^2 - 2 (w·d))` |
| Segments.ClampedVertexMinimizes | crates/core/src/primitives/line_segment.rs:47-53 | the clamped vertex `dot / lenSq` (or 0 for a zero-length segment) minimises the quadratic over `[0, 1]` |
| Segments.ClosestPointIsClosest | crates/core/src/primitives/line_segment.rs:42-55 | no point of the segment is closer to the given point than the closest point |
| Segments.DistanceToPointIsMinimal | crates/core/src/primitives/line_segment.rs:57-61 | with an exact square root, the distance to the segment is at most the distance to any of its points |
| Segments.ClosestPointOfSegmentPoint | crates/core/src/primitives/line_segment.rs:42-61 | a point of the segment is at squared distance 0 from its closest point |
| Segments.LengthExample | crates/core/src/primitives/line_segment.rs:89-94 | with an exact square root, the segment from the origin to (3, 4, 0) has length 5 |
| Segments.PointAtExample | crates/core/src/primitives/line_segment.rs:103-108 | parameter 0.5 on the segment to (10, 0, 0) is (5, 0, 0) |
| Distances.ManhattanDistance | crates/core/src/operations/distance.rs:4-6 | the Manhattan distance bounds every coordinate difference |
| Distances.ChebyshevDistance | crates/core/src/operations/distance.rs:9-14 | the Chebyshev distance bounds every coordinate difference and equals one of them |
| Distances.Symmetric | crates/core/src/operations/distance.rs:3-14 | both distances are symmetric and are zero exactly on identical points |
| Distances.ChebyshevBoundsManhattan | crates/core/src/operations/distance.rs:3-14 | `0 <= Chebyshev <= Manhattan <= 3 * Chebyshev` |
| Distances.ManhattanTriangle | crates/core/src/operations/distance.rs:3-6 | the Manhattan distance satisfies the triangle inequality |
| Distances.ChebyshevTriangle | crates/core/src/operations/distance.rs:8-14 | the Chebyshev distance satisfies the triangle inequality |
| Distances.Examples | crates/core/src/operations/distance.rs:20-65 | the test values: 12, 12, 5, 6 and 10 |
| Intersections.RayPlane | crates/core/src/operations/intersection.rs:5-20 | no hit when the ray direction is within EPSILON of parallel to the plane; otherwise a hit exactly when the plane parameter is non-negative, at the point of the ray at that parameter |
| Intersections.DistanceAlongRay | crates/core/src/operations/intersection.rs:5-20 | the signed plane distance grows linearly along the ray at the rate normal·direction that the denominator computes |
| Intersections.RayPlaneHitOnPlane | crates/core/src/operations/intersection.rs:5-20 | a reported hit lies exactly on the plane |
| Intersections.RayPlaneFindsEveryHit | crates/core/src/operations/intersection.rs:5-20 | for a non-parallel ray, every point of the ray at or ahead of its origin that lies on the plane is the one reported |
| Intersections.RayPlaneSceneConstruction | crates/core/src/operations/intersection.rs:156-168 | the test's plane z = 5 from a point and the +z normal has normal +z and offset -5 |
| Intersections.RayPlaneAxisHit | crates/core/src/operations/intersection.rs:5-20 | a ray climbing along z meets every plane z = k ahead of it at (x, y, k) |
| Intersections.RayPlaneHitExample | crates/core/src/operations/intersection.rs:156-168 | the ray from the origin along +z hits the plane z = 5 at (0, 0, 5) |
| Intersections.RayPlaneAxisParallel | crates/core/src/operations/intersection.rs:5-20 | a ray along x never meets a plane whose normal is along z |
| Intersections.RayPlaneParallelExample | crates/core/src/operations/intersection.rs:170-179 | the ray along +x misses the plane z = 5 |
| Intersections.RaySphere | crates/core/src/operations/intersection.rs:23-41 | no roots exactly when the discriminant is negative |
| Intersections.SquaredDistanceAlongRay | crates/core/src/operations/intersection.rs:26-31 | the squared distance to the center minus r² along the ray is the quadratic a t² + b t + c with the coefficients the source computes |
| Intersections.QuadraticRoot | crates/core/src/operations/intersection.rs:37-39 | (-b ± s) / 2a are roots when s² is the discriminant |
| Intersections.RootIsOneOfTwo | crates/core/src/operations/intersection.rs:37-39 | every root of the quadratic is one of the two returned |
| Intersections.DiscriminantOfRoot | crates/core/src/operations/intersection.rs:31-35 | a quadratic with a root has discriminant (2at + b)², hence non-negative |
| Intersections.RootsOrdered | crates/core/src/operations/intersection.rs:37-40 | the first root returned is the smaller one |
| Intersections.RaySphereRootsOnSurface | crates/core/src/operations/intersection.rs:23-41 | with an exact square root both parameters returned are ordered and give points on the sphere's surface |
| Intersections.RaySphereFindsEverySurfacePoint | crates/core/src/operations/intersection.rs:23-41 | every point of the ray's line on the sphere's surface makes the test report roots, one of which is its parameter |
| Intersections.RaySphereAxisHit | crates/core/src/operations/intersection.rs:23-41 | a ray along z toward a sphere whose center is c > r ahead gets the parameters (c - r)/s and (c + r)/s |
| Intersections.RaySphereHitExample | crates/core/src/operations/intersection.rs:181-192 | the ray along +z meets the unit sphere at (0, 0, 5) at parameters 4 and 6 |
| Intersections.RaySphereAxisMiss | crates/core/src/operations/intersection.rs:23-41 | a ray along x misses every sphere whose center is further than its radius off the line along y |
| Intersections.RaySphereMissExample | crates/core/src/operations/intersection.rs:194-201 | the ray along +x misses the unit sphere at (0, 10, 0) |
| Intersections.RayTriangle | crates/core/src/operations/intersection.rs:44-77 | a hit is reported only for a non-parallel ray, weights u in [0, 1], v >= 0, u + v <= 1 and a distance strictly ahead, and it is that distance |
| Intersections.RayTriangleHitPoint | crates/core/src/operations/intersection.rs:44-77 | Möller–Trumbore is exact: the point of the ray at the computed distance is a + u (b - a) + v (c - a) for the computed weights |
| Intersections.WeightsOfHit | crates/core/src/operations/intersection.rs:52-76 | the computed weights and distance are the unique solution of the hit-point equation |
| Intersections.RayTriangleFindsEveryHit | crates/core/src/operations/intersection.rs:44-77 | every crossing inside the triangle strictly ahead of a non-parallel ray is reported with its parameter |
| Intersections.RayTriangleAxis | crates/core/src/operations/intersection.rs:203-230 | a ray climbing along z under a triangle in a plane z = h is hit at k/s exactly when its foot lies in the triangle |
| Intersections.RayAabb | crates/core/src/operations/intersection.rs:80-136 | the slab loop over the three axes, leaving on the first rejection, returns the bounds that the slab-by-slab definition gives |
| Intersections.RejectionIsFinal | crates/core/src/operations/intersection.rs:109-127 | once one axis rejects the ray, the test rejects it |
| Intersections.ClipAxisExact | crates/core/src/operations/intersection.rs:109-128 | one axis pass keeps exactly the parameters that were within the bounds and in that axis's slab, and never leaves crossed bounds |
| Intersections.ClippedExact | crates/core/src/operations/intersection.rs:81-129 | after n axes the bounds hold exactly the parameters in the first n slabs, and a rejection means no parameter is in all of them |
| Intersections.SlabHitsExact | crates/core/src/operations/intersection.rs:80-136 | for an ordered box the test misses exactly when no parameter at or ahead of the origin is in all three slabs, and otherwise reports exactly the parameters in all three |
| Intersections.SlabHitsBounds | crates/core/src/operations/intersection.rs:131-135 | reported bounds never cross and the far one is never behind the origin |
| Intersections.ParallelOutsideMisses | crates/core/src/operations/intersection.rs:109-112 | a ray nearly parallel to an axis whose origin is outside that axis's slab misses the box |
| Intersections.InSlabsIsContainment | crates/core/src/operations/intersection.rs:80-136 | when each direction component is zero or at least EPSILON in size, the three slabs are exactly the box's points along the ray |
| Intersections.RayAabbHitsTheBox | crates/core/src/operations/intersection.rs:80-136 | every parameter within the reported bounds gives a point of the box |
| Intersections.RayAabbFindsEveryHit | crates/core/src/operations/intersection.rs:80-136 | every point of the box on the ray at or ahead of its origin is reported within the bounds |
| Intersections.RayAabbHitExample | crates/core/src/operations/intersection.rs:232-243 | the ray along +x enters the box from 1 to 3 at 1 and leaves it at 3 |
| Intersections.RayAabbMissExample | crates/core/src/operations/intersection.rs:245-252 | the ray along +x misses a box off its line |
| Intersections.AabbAabb | crates/core/src/operations/intersection.rs:139-141 | a definition without a contract of its own: the box overlap test; Intersections.AabbAabbSharedPoint states that ordered boxes pass it exactly when they share a point |
| Intersections.AabbAabbSharedPoint | crates/core/src/operations/intersection.rs:139-141 | two ordered boxes pass the overlap test exactly when they share a point |
| Intersections.AabbAabbExamples | crates/core/src/operations/intersection.rs:254-268 | overlapping and separated test boxes are told apart |
| Intersections.SphereSphere | crates/core/src/operations/intersection.rs:144-148 | a definition without a contract of its own: the squared center distance is at most the squared sum of the radii; Intersections.SphereSphereSharedPoint and Intersections.SphereSphereOfSharedPoint state that spheres pass it exactly when they share a point |
| Intersections.SphereSphereSymmetric | crates/core/src/operations/intersection.rs:144-148 | the sphere overlap test does not depend on the order of the spheres and accepts spheres that just touch |
| Intersections.SphereSphereByDistance | crates/core/src/operations/intersection.rs:144-148 | with an exact square root, the squared comparison is the comparison of the center distance with the sum of the radii |
| Intersections.SphereSphereSharedPoint | crates/core/src/operations/intersection.rs:144-148 | spheres that pass the test share a point |
| Intersections.SphereSphereOfSharedPoint | crates/core/src/operations/intersection.rs:144-148 | spheres that share a point pass the test |
| Intersections.SphereSphereExamples | crates/core/src/operations/intersection.rs:270-284 | overlapping and separated test spheres are told apart |
| Transforms.ScalePoint | crates/core/src/operations/transform.rs:15-18 | the offset of the result from the center is the offset of the point scaled by the factor |
| Transforms.TranslatePointRoundTrip | crates/core/src/operations/transform.rs:10-12 | translating by v and then by -v restores the point, and two translations compose into one by the sum |
| Transforms.ScaleFixesCenter | crates/core/src/operations/transform.rs:15-18 | the center is fixed by every scale and factor 1 fixes every point |
| Transforms.ScalePointComposes | crates/core/src/operations/transform.rs:15-18 | scaling by f then by g about one center is scaling by f g |
| Transforms.ScalePointRoundTrip | crates/core/src/operations/transform.rs:15-18 | a non-zero factor is undone by its reciprocal |
| Transforms.ScaledDifference | crates/core/src/operations/transform.rs:15-18 | the vector between two scaled points is the original one scaled by the factor |
| Transforms.ScaledDistance | crates/core/src/operations/transform.rs:15-18 | squared distances scale by factor² |
| Transforms.PointExamples | crates/core/src/operations/transform.rs:110-141 | the unit-test point translation and scalings give the expected points |
| Transforms.TranslateSegment | crates/core/src/operations/transform.rs:21-26 | both endpoints are translated and the result is still non-degenerate |
| Transforms.TranslateSegmentDefined | crates/core/src/operations/transform.rs:21-26 | the translation's `expect` holds exactly for non-degenerate segments, and translating back by -v restores the segment |
| Transforms.ScaleSegment | crates/core/src/operations/transform.rs:28-35 | both endpoints are scaled about the center and the result is still non-degenerate |
| Transforms.ScaleSegmentDefined | crates/core/src/operations/transform.rs:28-35 | factor 0 always trips the scale `expect`; a factor of magnitude at least 1 never does on a valid segment |
| Transforms.TranslateSegmentExample | crates/core/src/operations/transform.rs:143-152 | the unit-test segment moves by (1, 2, 3) |
| Transforms.ScaleSegmentExample | crates/core/src/operations/transform.rs:153-163 | a unit segment along x doubles about the origin |
| Transforms.TranslateSphere | crates/core/src/operations/transform.rs:38-43 | the center moves and the radius is kept |
| Transforms.TranslateSphereContains | crates/core/src/operations/transform.rs:38-43 | a point is in the sphere exactly when its translate is in the translated sphere |
| Transforms.ScaleSphere | crates/core/src/operations/transform.rs:45-52 | the center is scaled and the radius multiplied by the factor's magnitude, staying positive |
| Transforms.ScaleSphereDefined | crates/core/src/operations/transform.rs:45-52 | for a valid sphere the scale `expect` holds exactly when the factor is non-zero |
| Transforms.ScaledDistanceAbs | crates/core/src/operations/transform.rs:45-52 | squared distances scale by the square of the factor's magnitude |
| Transforms.ScaleSphereContains | crates/core/src/operations/transform.rs:45-52 | a point is in the sphere exactly when its scaled image is in the scaled sphere |
| Transforms.TranslateSphereExample | crates/core/src/operations/transform.rs:164-173 | the unit sphere moved by (5, 5, 5) is centered at (5, 5, 5) with radius 1 |
| Transforms.ScaleSphereExample | crates/core/src/operations/transform.rs:174-183 | a radius-2 sphere scaled by 3 about the origin has radius 6 and a tripled center |
| Transforms.TranslateAabb | crates/core/src/operations/transform.rs:56-60 | both corners are translated and the result stays strictly ordered |
| Transforms.TranslateAabbLaws | crates/core/src/operations/transform.rs:56-60 | the translation's `expect` holds exactly for strictly ordered boxes, -v undoes it, and containment is carried along |
| Transforms.ScaleAabb | crates/core/src/operations/transform.rs:62-80 | the corners are the per-axis minimum and maximum of the scaled corners, strictly ordered |
| Transforms.ScaleInterval | crates/core/src/operations/transform.rs:67-77 | scaling by a non-zero factor maps an interval, re-sorted, onto the scaled points of exactly that interval |
| Transforms.ScaleAabbContains | crates/core/src/operations/transform.rs:62-80 | for a non-zero factor a point is in the box exactly when its scaled image is in the scaled box |
| Transforms.ScaleAabbDefined | crates/core/src/operations/transform.rs:62-80 | for a valid box the scale `expect` holds exactly when the factor is non-zero |
| Transforms.AabbExamples | crates/core/src/operations/transform.rs:184-213 | the unit-test box translation and the scalings by 2 and -1, the latter swapping corners, give the expected boxes |
| Transforms.TranslateTriangle | crates/core/src/operations/transform.rs:84-92 | each vertex is translated, in order |
| Transforms.TranslateTriangleDefined | crates/core/src/operations/transform.rs:84-92 | translation keeps collinearity as it was, so the `expect` holds for every valid triangle |
| Transforms.ScaleTriangle | crates/core/src/operations/transform.rs:94-102 | each vertex is scaled about the center, in order |
| Transforms.CrossOfScaled | crates/core/src/operations/transform.rs:94-102 | scaling both edges by f scales their cross product by f² |
| Transforms.ScaledCrossMagnitude | crates/core/src/operations/transform.rs:94-102 | the scaled triangle's squared cross magnitude is the original times factor⁴ |
| Transforms.ScaleTriangleDefined | crates/core/src/operations/transform.rs:94-102 | factor 0 always trips the scale `expect`; a factor of magnitude at least 1 never does on a valid triangle |
| Transforms.ScaleTriangleTooSmall | crates/core/src/operations/transform.rs:94-102 | a valid triangle of unit cross magnitude scaled by 0.00001 trips the `expect`, so "scaling preserves non-collinearity" fails for small factors |
| Transforms.RightTriangleCross | crates/core/src/operations/transform.rs:214-244 | the unit-test right triangle has cross magnitude 1 and is accepted |
| Transforms.TranslateTriangleExample | crates/core/src/operations/transform.rs:214-229 | the right triangle moved by (1, 1, 1) has the expected vertices |
| Transforms.ScaleTriangleDoubledDefined | crates/core/src/operations/transform.rs:230-244 | doubling the right triangle about the origin keeps it valid |
| Transforms.ScaleTriangleExample | crates/core/src/operations/transform.rs:230-244 | doubling the right triangle about the origin doubles each vertex |
| Cameras.NewPerspective | src/svg/camera.rs:24-42 | a perspective camera keeping every argument as given |
| Cameras.NewOrthographic | src/svg/camera.rs:44-58 | an orthographic camera keeping every argument as given |
| Cameras.CreationExamples | src/svg/camera.rs:170-208 | the test cameras keep field of view 60, aspect 16/9, width 10 and height 10 |
| Cameras.Forward | src/svg/camera.rs:76-82 | a definition without a contract of its own: the normalised offset from position to target, or (0, 0, -1); Cameras.ForwardFallback and Cameras.ForwardTowardsTarget state when each case applies and that the first is a unit vector towards the target |
| Cameras.RightOf | src/svg/camera.rs:84-87 | a definition without a contract of its own: the normalised `forward × up`, or (1, 0, 0); Cameras.RightFallback and Cameras.FrameOrthogonal state when the fallback fires and that a normalised right is perpendicular to forward and up |
| Cameras.LookAt | src/svg/camera.rs:88-110 | a definition without a contract of its own: the rows right, `right × forward` and minus forward with their translations, then [0, 0, 0, 1]; Projection.LookAtApplied states that it gives a point's offset from the camera in the frame's coordinates |
| Cameras.ViewMatrix | src/svg/camera.rs:60-111 | a definition without a contract of its own: the look-at matrix of the camera's frame; Cameras.ViewMatrixRows and Projection.ViewMapsPositionToOrigin state its rows and that it moves the camera to the origin |
| Cameras.ViewMatrixRows | src/svg/camera.rs:90-110 | the view matrix rows are right, camera up and minus forward, each with minus its dot product with the position, then the affine row [0, 0, 0, 1] |
| Cameras.ForwardFallback | src/svg/camera.rs:76-82 | forward falls back to (0, 0, -1) exactly when the target is within EPSILON of the position, and is otherwise the normalised offset to the target |
| Cameras.ForwardTowardsTarget | src/svg/camera.rs:76-82 | a normalised forward is a unit vector that, scaled by the distance, is the offset to the target |
| Cameras.RightFallback | src/svg/camera.rs:84-87 | right falls back to (1, 0, 0) exactly when forward × up is shorter than EPSILON |
| Cameras.ParallelUpFallsBack | src/svg/camera.rs:84-87 | an up vector parallel to forward makes right fall back to (1, 0, 0) |
| Cameras.FrameOrthogonal | src/svg/camera.rs:84-88 | a normalised right is perpendicular to forward and up, and camera up is always perpendicular to right and forward |
| Cameras.BasisOrthogonal | src/svg/camera.rs:60-111 | the camera's basis is orthogonal whenever right did not fall back |
| Cameras.FallbackBasisCanDegenerate | src/svg/camera.rs:84-88 | an up vector equal to forward (1, 0, 0) makes the fallback right equal forward, so camera up vanishes |
| Cameras.ForwardAlongX | src/svg/camera.rs:76-82 | a target two units along x gives forward (1, 0, 0) |
| Cameras.ProjectionMatrix | src/svg/camera.rs:113-163 | a definition without a contract of its own, defined when its divisors are non-zero; Cameras.PerspectiveRows and Cameras.OrthographicRows state its entries for both kinds of camera |
| Cameras.PerspectiveRows | src/svg/camera.rs:121-136 | x is scaled by 1/(aspect tan(fov/2)), y by 1/tan(fov/2), depth maps with the coefficients -(far+near)/(far-near) and -2 far near/(far-near), the bottom row copies -z into w, and every other entry is zero |
| Cameras.OrthographicRows | src/svg/camera.rs:137-161 | the orthographic matrix is diag(2/width, 2/height, -1, 1) |
| Projection.MultiplyMatrices | src/svg/projection.rs:12-20 | the nested loop fills every entry with the sum over k of a[i][k] b[k][j] |
| Projection.Product | src/svg/projection.rs:12-20 | every entry of the product is the row-by-column sum |
| Projection.MultiplyMatrixPoint | src/svg/projection.rs:4-10 | a definition without a contract of its own: the four row sums with the point's homogeneous coordinate 1; Projection.PointIsHomogeneous and Projection.IdentityPoint state that it applies the matrix to [x, y, z, 1] |
| Projection.PointIsHomogeneous | src/svg/projection.rs:4-10 | multiplying a point is applying the matrix to [x, y, z, 1] |
| Projection.IdentityPoint | src/svg/projection.rs:53-64 | the identity maps a point to [x, y, z, 1] |
| Projection.ApplyProduct | src/svg/projection.rs:12-20 | applying a product applies its right factor first and then its left one |
| Projection.IdentityNeutral | src/svg/projection.rs:12-20 | the identity is neutral on both sides of the product |
| Projection.AffineProduct | src/svg/projection.rs:12-20 | the product of two affine matrices is affine |
| Projection.IdentitySquared | src/svg/projection.rs:66-84 | identity times identity is the identity |
| Projection.PerspectiveDivide | src/svg/projection.rs:22-32 | below the 1e-10 threshold on w the coordinates pass through; otherwise each result times w is the coordinate |
| Projection.DivideIsProjective | src/svg/projection.rs:22-32 | the divide ignores a common non-zero factor of all four coordinates |
| Projection.PerspectiveDivideExample | src/svg/projection.rs:86-93 | [2, 4, 6, 2] divides to (1, 2, 3) |
| Projection.PerspectiveDivideAtInfinity | src/svg/projection.rs:23-24 | with w = 0 the raw coordinates are returned |
| Projection.NdcToScreen | src/svg/projection.rs:42-43 | x in [-1, 1] lands exactly in [0, width], y in [-1, 1] exactly in [0, height], and (0, 0) at the screen's centre |
| Projection.NdcToScreenInverse | src/svg/projection.rs:42-43 | the screen mapping is inverted by 2x/width - 1 and 1 - 2y/height |
| Projection.LookAtApplied | src/svg/camera.rs:90-110 | the view matrix gives a point's offset from the camera in the frame's coordinates |
| Projection.ViewMapsPositionToOrigin | src/svg/camera.rs:60-111 | the camera sits at the origin of view space |
| Projection.ViewMapsTargetToAxis | src/svg/camera.rs:60-111 | when neither fallback fires, the target lands on the negative z axis at minus its distance |
| Projection.ViewProjection | src/svg/projection.rs:35-37 | a definition without a contract of its own: the projection matrix times the view matrix; Projection.ViewThenProjection states that it applies the view first |
| Projection.ViewThenProjection | src/svg/projection.rs:34-39 | the view-projection product applies the view and then the projection |
| Projection.AffineWIsOne | src/svg/projection.rs:22-32 | an affine matrix gives w = 1, so the divide passes x, y and z through |
| Projection.OrthographicWIsOne | src/svg/projection.rs:34-40 | under an orthographic camera every point gets w = 1 |
| Projection.PerspectiveNearPlane | src/svg/camera.rs:121-136 | the near plane z = -near is mapped to depth -1 |
| Projection.PerspectiveFarPlane | src/svg/camera.rs:121-136 | the far plane z = -far is mapped to depth 1 |
| Projection.ProjectPoint | src/svg/projection.rs:34-46 | a definition without a contract of its own: the view-projection product, the divide, then the screen mapping; Projection.TargetProjectsToCentre and Projection.ProjectPointExamples state where the target and the origin land |
| Projection.TargetProjectsToCentre | src/svg/projection.rs:34-46 | when neither fallback fires, the camera's target is drawn at the centre of the screen for both kinds of camera |
| Projection.TestCameraFrame | src/svg/projection.rs:95-129 | the test camera's forward and right normalise |
| Projection.ProjectPointExamples | src/svg/projection.rs:95-129 | the test cameras draw the origin at (400, 300) on an 800 x 600 screen, inside the screen as the tests require |
| Text.SplitJoin | crates/core/src/svg/renderer.rs:72-76 | joining with a one-character separator that occurs in no part is undone by splitting at that character |
| Text.JoinContainsPart | crates/core/src/svg/renderer.rs:72-76 | every part occurs in the joined text |
| Text.NatToString | crates/core/src/svg/renderer.rs:227-231 | the canvas size is written as a non-empty string of decimal digits with no leading zero |
| Text.NatToStringParses | crates/core/src/svg/renderer.rs:227-231 | reading the numeral back gives the number |
| Text.NatToStringInjective | crates/core/src/svg/renderer.rs:227-231 | different sizes are written differently |
| Text.ContainsTransitive | crates/core/src/svg/renderer.rs:383-404 | an occurrence of an occurrence is an occurrence |
| Rendering.Attributes | crates/core/src/svg/renderer.rs:34-87 | a definition without a contract of its own: the attributes of each kind of element in the order the source writes them; Rendering.FillIsWritten and Rendering.StrokeIsWritten state that the fill and the stroke are always present |
| Rendering.ElementString | crates/core/src/svg/renderer.rs:34-87 | a definition without a contract of its own: a self-closing tag with the attributes separated by single spaces; Rendering.ElementIsOneLine and Rendering.StrokeIsWritten state its properties |
| Rendering.FillAttributeText | crates/core/src/svg/renderer.rs:44-47 | a missing fill is written fill="none", a present one as fill="colour" |
| Rendering.FillIsWritten | crates/core/src/svg/renderer.rs:34-87 | circles and polygons always carry their fill attribute, fill="none" when they have none |
| Rendering.PointPairIsJoin | crates/core/src/svg/renderer.rs:74 | a polygon vertex is its two formatted numbers joined by a comma |
| Rendering.PolygonPointsSplit | crates/core/src/svg/renderer.rs:72-76 | when the number format writes no spaces, the points text splits at spaces back into the vertex pairs, and each pair at its comma back into its two numbers |
| Rendering.ElementIsOneLine | crates/core/src/svg/renderer.rs:34-87 | an element whose colours and numbers hold no line break is written on one line |
| Rendering.StrokeIsWritten | crates/core/src/svg/renderer.rs:34-87 | the stroke colour appears in the element's text |
| Rendering.ElementLinesAt | crates/core/src/svg/renderer.rs:241-243 | element i is written after the elements before it and before those after it |
| Rendering.Document | crates/core/src/svg/renderer.rs:225-247 | a definition without a contract of its own: header, optional background, element lines, closing tag; Rendering.DocumentFrame, Rendering.DocumentLineCount and Rendering.DocumentShows state its shape |
| Rendering.DocumentFrame | crates/core/src/svg/renderer.rs:225-247 | the output opens with the svg header and ends with the closing tag |
| Rendering.BackgroundFollowsHeader | crates/core/src/svg/renderer.rs:233-239 | right after the header comes the background rectangle exactly when a background is set |
| Rendering.DocumentLineCount | crates/core/src/svg/renderer.rs:225-247 | the output has one line for the header, one for a background and one per element, the closing tag ending none |
| Rendering.DocumentShows | crates/core/src/svg/renderer.rs:225-247 | the background colour and every element line with its stroke colour appear in the output |
| Rendering.ToStringExample | crates/core/src/svg/renderer.rs:383-404 | the 800 x 600 white-background output with one red point holds the svg tags and both colours |
| Rendering.Corners | crates/core/src/svg/renderer.rs:182-191 | the eight corners of the box |
| Rendering.BoxEdgeAlongAxis | crates/core/src/svg/renderer.rs:182-206 | each listed edge runs along one axis, spanning the box on it and agreeing on the other two coordinates |
| Rendering.EdgesDistinct | crates/core/src/svg/renderer.rs:193-206 | no edge is listed twice, in either direction |
| Rendering.EdgeEndsDiffer | crates/core/src/svg/renderer.rs:193-206 | in a strictly ordered box the two ends of every edge differ |
| Rendering.EdgeUnwrapIff | crates/core/src/svg/renderer.rs:208-211 | the segment constructor accepts an edge exactly when the box is not thinner than EPSILON along the edge's axis, and then returns the edge |
| Rendering.UnwrapsSucceedIff | crates/core/src/svg/renderer.rs:208-211 | all twelve unwraps succeed exactly when the box is at least EPSILON thick on every axis |
| Rendering.ThinBoxPanics | crates/core/src/svg/renderer.rs:209 | a box the box constructor accepts, 1e-11 wide along x, makes add_aabb as written panic |
| Rendering.SVGRenderer.constructor | crates/core/src/svg/renderer.rs:99-107 | a renderer of the given size and camera with no background and no elements |
| Rendering.SVGRenderer.SphereCircle | crates/core/src/svg/renderer.rs:157-176 | an unfilled circle centred on the projected centre whose radius is the horizontal screen distance to the projected point one radius to the right |
| Rendering.SVGRenderer.SphereAtTargetIsCentred | crates/core/src/svg/renderer.rs:157-176 | a sphere centred on the camera's target is drawn at the centre of the screen |
| Rendering.SVGRenderer.SetBackground | crates/core/src/svg/renderer.rs:109-111 | the background becomes the given colour and nothing else changes |
| Rendering.SVGRenderer.AddPoint | crates/core/src/svg/renderer.rs:113-123 | one filled circle of radius size at the projected point is appended |
| Rendering.SVGRenderer.AddLineSegment | crates/core/src/svg/renderer.rs:125-136 | one line between the projected end points is appended |
| Rendering.SVGRenderer.AddTriangle | crates/core/src/svg/renderer.rs:138-155 | one polygon through the three projected vertices, in order, is appended |
| Rendering.SVGRenderer.AddSphere | crates/core/src/svg/renderer.rs:157-176 | the sphere's outline circle is appended |
| Rendering.SVGRenderer.AddAabb | crates/core/src/svg/renderer.rs:178-212 | twelve lines, the box's edges in the listed order, are appended and every box is drawn |
| Rendering.SVGRenderer.ToSvgString | crates/core/src/svg/renderer.rs:214-216 | the header, the background, the element lines in insertion order and the closing tag |
| Rendering.SVGRenderer.Outline | crates/core/src/svg/renderer.rs:193-211 | the twelve lines add_aabb draws, one per listed edge |

## Left out

- IEEE-754 behaviour: rounding, NaN and infinities, and the NaN rules of `f64::min`/`max`. Every scalar is an exact real, so no statement depends on floating-point error.
- `sqrt`, `tan`, `acos` and the `{:.2}` formatting are function parameters, not definitions. The magnitude, normal and area results are stated relative to them. Properties that need an exact root take that as a hypothesis.
- `SVGRenderer::to_file` is file I/O. `Rendering.SVGRenderer.ToSvgString` models the text it would write.
- The Python and WebAssembly bindings, the generated JavaScript glue, the example programs and the module files that only re-export are not part of this model. The unit tests are read as examples and restated as lemmas.
- The near-identical `src/` and `crates/core/src/` trees are modelled once. Each primitive is cited from the tree that holds it.
- Vectors.Div: requires a non-zero divisor. Division by zero gives infinities in the source.
- Intersections.RaySphere: requires a non-zero ray direction, because the roots divide by 2a. Every ray built by `Ray::new` has a unit direction.
- Triangles.ToPlane: requires non-collinear vertices, as `expect` does, and a square root exact at the cross product's squared magnitude. Its contract is then that `Plane::from_three_points` succeeds with that plane. Triangles.ContainsPoint carries the same preconditions.
- Cameras.ProjectionMatrix: requires that none of its divisors are zero. These are `aspect · tan(fov/2)`, `tan(fov/2)`, `far - near`, `width` and `height`. Beyond that point the source produces infinities or NaN. The renderer's `add_*` methods and `Projection.ProjectPoint` inherit this precondition as `Projectable`.
- Rendering.SVGRenderer.constructor: the renderer keeps the `sqrt` and `tan` it projects with as fields, because the platform functions are parameters of the model.
- Projection.MultiplyMatrices: the entries are summed over exact reals, so the order of the floating-point sum `(0..4).map(..).sum()` does not matter in the model.
- Intersections.RayAabbHitsTheBox and Intersections.RayAabbFindsEveryHit: require every direction component to be zero or at least EPSILON in size. A non-zero component below EPSILON is treated by the source as parallel, so only the origin is compared with that axis's slab, and the reported interval is then not the box's exact interval along the ray. `Intersections.SlabHitsExact` states what is reported for every direction.
- Vectors.Angle and Spheres.VolumeAndAreaScale: stated relative to `acos`, `sqrt` and `PI`, not as numbers.

## Findings

| source | as written | input that shows it | evidently intended | confidence | as-written member | corrected member |
|---|---|---|---|---|---|---|
| crates/core/src/svg/renderer.rs:209 | `add_aabb` passes every edge through `LineSegment::new(..).unwrap()`, which panics when the two corners are within EPSILON of each other. A box that `AABB::new` accepts can be thinner than EPSILON on one axis. | `AABB::new((0, 0, 0), (0.00000000001, 1, 1))` is accepted, and its first edge, from (0, 0, 0) to (0.00000000001, 0, 0), is rejected | draw all twelve edges of every valid box | not executed | Rendering.ThinBoxPanics | Rendering.SVGRenderer.AddAabb |
