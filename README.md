# A verified model of a small C++ path tracer

This project models the core of a small path tracer in Dafny. The tracer
shoots jittered rays from a pinhole camera through every pixel and
intersects them with spheres, a ground plane, lists of objects and a
bounding volume hierarchy (BVH). At each hit it scatters the ray by the
surface material and recurses to a bounded depth. A ray that misses
everything shows a sky gradient. Each pixel stores the gamma-corrected
average of its samples. Worker threads split the rows of the frame buffer
among themselves.

Doubles are modelled as Dafny `real`. The two infinities are an extended
real (`Helpers.ExtReal`). Everything the source draws at random is a
parameter of the model: the BVH split axis, the scatter vectors and the
pixel jitter. So are the square root (`sqrt`, with `Helpers.IsSqrt` stating
what it must satisfy) and the ray-box test `AABB::hit`.

The modules follow the headers:

| module | header | form |
|---|---|---|
| `Helpers` | HelperFunctions.h | functions |
| `Intervals` | Interval.h | datatype |
| `Vectors` | Vector3.h | datatype; `MutableVector3` class for `+=`, `*=`, `/=` |
| `Rays` | Ray.h | datatype |
| `Colors` | Color3.h | datatype; `MutableColor3` class for `+=`, `/=` |
| `Boxes` | AABB.h | datatype |
| `HitRecords` | HitRecord.h | `Hit` value and `HitRecord` class with setters |
| `Materials` | Material.h | datatype |
| `Objects` | Scene.h, BVHNode.h (`rayHit`) | datatype and functions |
| `Scenes` | Scene.h (`Scene`) | class with the `rayHit` loop |
| `Bvh` | BVHNode.h (constructor) | array method proved against functions |
| `Cameras` | Camera.h | datatype |
| `RenderUtils` | RenderUtils.h | recursion, sampling, loops over an `array` |
| `Renderers` | Renderer.h | class delegating to `RenderUtils` |

Where the design intent and the code disagree, the model follows the code:

- `setFrontFace` in HitRecord.h is meant to store a normal facing against
  the incoming ray, but the unary minus of `Vector3` does not negate, so the
  code stores the outward normal on both faces (see Findings).
  `HitRecords.HitRecord.SetFrontFace` models the code as written;
  `HitRecords.HitRecord.SetFrontFaceCorrected` is the intended rule.
- The sphere and the plane store the outward normal unflipped.
- `renderRows` in RenderUtils.h traces every sample to depth 10, whatever
  the render parameters say. `Renderer.h` uses `maximumRecursionDepth`.

## Model

| member | source | states |
|---|---|---|
| Helpers.Minus | Interval.h:13 | `max - min` on extended reals: the finite difference for finite bounds; NaN exactly when both are the same infinity; otherwise the matching infinity |
| Helpers.Abs | Vector3.h:93 | `fabs` is non-negative and equals `v` or `-v` |
| Helpers.Max | AABB.h:45-48 | `std::max` is at least both arguments and is one of them |
| Helpers.Min | AABB.h:41-44 | `std::min` is at most both arguments and is one of them |
| Helpers.TruncateToInt | Color3.h:13-15 | C++ `int(v)` truncates toward zero: `n <= v < n + 1` for `v >= 0`, `n - 1 < v <= n` for `v <= 0` |
| Helpers.DegreesToRadians | HelperFunctions.h:14-17 | 180 degrees is pi, 0 is 0, and positive angles stay positive |
| Helpers.RadiansToDegrees | HelperFunctions.h:19-22 | pi is 180 degrees, and positive angles stay positive |
| Helpers.DegreesRoundTrip | HelperFunctions.h:14-22 | `radiansToDegrees(degreesToRadians(d)) == d` |
| Helpers.RadiansRoundTrip | HelperFunctions.h:14-22 | `degreesToRadians(radiansToDegrees(r)) == r` |
| Helpers.DegreesToRadiansIncreasing | HelperFunctions.h:14-17 | `degreesToRadians` is strictly increasing |
| Intervals.Interval.Size | Interval.h:13 | `max - min` for finite bounds; `-inf` for the empty interval and `+inf` for the infinite one; NaN exactly when both bounds are the same infinity |
| Intervals.Interval.Contains | Interval.h:15 | holds exactly when `min <= v <= max`, with infinite bounds read as unbounded |
| Intervals.Interval.Surrounds | Interval.h:16 | holds exactly when `min < v < max`, and implies `contains` |
| Intervals.Interval.ClampValue | Interval.h:18-22 | returns `v` when contained, otherwise a bound; for `min <= max` the result lies in `[min, max]` |
| Intervals.ClampValueToInterval | Interval.h:24-28 | equals the member `clampValue` of the interval passed in |
| Intervals.EmptyInterval | Interval.h:38 | contains no value |
| Intervals.InfiniteInterval | Interval.h:39 | contains and surrounds every finite value |
| Intervals.ClampIdempotent | Interval.h:18-22 | clamping a clamped value changes nothing |
| Vectors.Vector3.NegAsWritten | Vector3.h:20 | unary minus as written returns every component unchanged |
| Vectors.Vector3.Neg | Vector3.h:20 | corrected unary minus: `-v + v == 0` and `(-v)·v == -|v|²` |
| Vectors.Vector3.Sub | Vector3.h:46-48 | `(a - b) + b == a` |
| Vectors.Vector3.Div | Vector3.h:58-60 | `(v / s) * s == v` for `s != 0` |
| Vectors.Vector3.LengthSquared | Vector3.h:80-82 | non-negative and at least the square of each component |
| Vectors.Vector3.NearZero | Vector3.h:92-94 | near zero implies `|v|² < 3ε²`, and `|v|² < ε²` implies near zero |
| Vectors.Vector3.UnitVector | Vector3.h:84-90 | with a true `sqrt` the result has squared length 1 for a non-zero vector and at most 1 always |
| Vectors.MutableVector3.constructor | Vector3.h:13 | a default vector is zero |
| Vectors.MutableVector3.FromValue | Vector3.h:14 | the vector holds the three given components |
| Vectors.MutableVector3.AddAssign | Vector3.h:22-28 | after `v += w`, `v` is the old `v + w` |
| Vectors.MutableVector3.ScaleAssign | Vector3.h:30-36 | after `v *= s`, `v` is the old `v * s` |
| Vectors.MutableVector3.DivAssign | Vector3.h:38-40 | `v /= s` is `v *= (1 / s)`, which is the old `v / s` |
| Vectors.DotCommutative | Vector3.h:66-68 | `a·b == b·a` |
| Vectors.DotBilinear | Vector3.h:66-68 | `dot` distributes over `+` and `-` and commutes with scaling |
| Vectors.CrossOrthogonal | Vector3.h:70-74 | `a × b` is orthogonal to `a` and to `b` |
| Vectors.NegAsWrittenIsIdentity | Vector3.h:20 | as written, `-v == v` for every vector |
| Vectors.NegAsWrittenDiffers | Vector3.h:20 | on `(1, 0, 0)` the written and the corrected unary minus differ |
| Vectors.NegInvolution | Vector3.h:20 | the corrected unary minus is an involution |
| Vectors.ReflectFlipsNormalComponent | Vector3.h:96-99 | for a unit normal `n`, `reflect(v)·n == -(v·n)` |
| Vectors.ReflectTwice | Vector3.h:96-99 | reflecting twice about a unit normal gives `v` back |
| Vectors.ReflectPreservesLength | Vector3.h:96-99 | reflection about a unit normal preserves the squared length |
| Rays.Ray.PointAlongRay | Ray.h:11 | `pointAlongRay(t) - origin == direction * t`, and `pointAlongRay(0) == origin` |
| Rays.AccessorsReturnArguments | Ray.h:8-10 | `origin()` and `direction()` return the constructor arguments |
| Rays.PointAlongRayAdditive | Ray.h:11 | `pointAlongRay(s + t) == pointAlongRay(s) + direction * t` |
| Rays.PointAlongRayDifference | Ray.h:11 | two points differ by the direction scaled by the difference of their distances |
| Colors.Color3.R | Color3.h:13 | a red component in `[0, 1]` gives a channel in `[0, 255]` |
| Colors.Color3.G | Color3.h:14 | a green component in `[0, 1]` gives a channel in `[0, 255]` |
| Colors.Color3.B | Color3.h:15 | a blue component in `[0, 1]` gives a channel in `[0, 255]` |
| Colors.Channel | Color3.h:13-15 | `int(255.999 * c)` maps `[0, 1]` into `[0, 255]`, 1 to 255 and 0 to 0 |
| Colors.AverageComponent | Color3.h:50-57 | with a true `sqrt`, `sqrt(c / n)` is non-negative, and its square times `n` is `c` |
| Colors.AverageComponents | Color3.h:50-57 | each component of `correctedAverage(n)` is `sqrt((1 / n) * c)` |
| Colors.CorrectedAverageInverts | Color3.h:50-57 | for `n > 0` and non-negative components, `correctedAverage(n)` is non-negative, and squaring it and multiplying by `n` gives the sum back |
| Colors.AddCommutative | Color3.h:35-40 | colour `+` is commutative |
| Colors.MulCommutative | Color3.h:22-28 | colour × colour is commutative |
| Colors.BlackIdentity | Color3.h:35-40 | black is the identity of `+` and absorbs colour × colour |
| Colors.NonNegativeClosed | Color3.h:17-40 | `+`, colour × colour and scaling by a non-negative factor keep colours non-negative |
| Colors.MutableColor3.constructor | Color3.h:10 | a default-constructed colour is black |
| Colors.MutableColor3.FromValue | Color3.h:11 | the colour holds the three given components |
| Colors.MutableColor3.AddAssign | Color3.h:42-48 | after `c += o`, `c` is the old `c + o` |
| Colors.MutableColor3.DivAssign | Color3.h:59-65 | `/= s` divides each component by `s`, and scaling back by `s` restores the old colour |
| Boxes.SurroundingBoxComponents | AABB.h:39-50 | the min corner is component-wise at most both min corners and equal to one of them; likewise the max corner is at least both max corners |
| Boxes.SurroundingBoxEnclosesBoth | AABB.h:39-50 | the union encloses both boxes |
| Boxes.SurroundingBoxLeast | AABB.h:39-50 | any box enclosing both arguments encloses their union |
| Boxes.SurroundingBoxContainsPoints | AABB.h:39-50 | every point inside either box is inside the union |
| Boxes.SurroundingBoxCommutative | AABB.h:39-50 | `surroundingBox(a, b) == surroundingBox(b, a)` |
| Boxes.SurroundingBoxAssociative | AABB.h:39-50 | `surroundingBox` is associative |
| Boxes.SurroundingBoxIdempotent | AABB.h:39-50 | `surroundingBox(b, b) == b` |
| HitRecords.StoredNormalAsWritten | HitRecord.h:25 | as written, a front-face hit stores the outward normal; a back-face hit stores the written unary minus of it |
| HitRecords.StoredNormalAsWrittenIsOutward | HitRecord.h:22-26 | as written, the stored normal is the outward normal in every case |
| HitRecords.StoredNormal | HitRecord.h:22-26 | corrected: the outward normal on a front face, otherwise its negation, so it never points along the ray |
| HitRecords.StoredNormalDiffersOnBackFace | HitRecord.h:25 | on a back-face hit the written and the corrected rules store different normals |
| HitRecords.HitRecord.constructor | HitRecord.h:29-34 | a fresh record has zero vectors and a null material |
| HitRecords.HitRecord.SetHitPoint | HitRecord.h:19 | sets the hit point and leaves every other field unchanged |
| HitRecords.HitRecord.SetSurfaceNormal | HitRecord.h:20 | sets the normal and leaves every other field unchanged |
| HitRecords.HitRecord.SetDistanceAlongRay | HitRecord.h:21 | sets the distance and leaves every other field unchanged |
| HitRecords.HitRecord.SetFrontFace | HitRecord.h:22-26 | as written: `frontFace` holds exactly when `d·n < 0`; the stored normal is the written rule's, which is the outward normal `n` on both faces; nothing else changes |
| HitRecords.HitRecord.SetFrontFaceCorrected | HitRecord.h:22-26 | corrected: `frontFace` holds exactly when `d·n < 0`; the normal is `n` on a front face and `-n` on a back face, so it never points along the ray; nothing else changes |
| HitRecords.HitRecord.SetSurfaceMaterial | HitRecord.h:27 | sets the material and leaves every other field unchanged |
| Materials.MakeGlossy | Material.h:69 | the stored glossiness is the argument clamped into `[0, 1]` |
| Materials.Color | Material.h:36-101 | `color()` is the albedo, or a light's emitted colour |
| Materials.EmittedColor | Material.h:16-19 | black for every material except a light, which emits its colour |
| Materials.Scatter | Material.h:28-97 | every scattered ray starts at the hit point, and only a light scatters nothing. Diffuse: `normal + random` when that is not near zero, and exactly the normal when it is. Reflective: the mirror of the unit incoming direction. Glossy: the perturbed mirror direction when its dot with the normal is positive, and exactly the normal otherwise |
| Materials.GlossyZeroIsMirror | Material.h:69-77 | with default glossiness 0 a glossy surface reflects like a mirror, falling back to the normal when the mirror direction does not leave the surface |
| Materials.EmissionRules | Material.h:94-105 | a light scatters nothing and its colour is its emission; every other material emits black and scatters |
| Materials.ReflectiveFlipsNormalComponent | Material.h:51-55 | for a unit normal, the mirror direction's component along the normal is the negated component of the unit incoming direction |
| Objects.BoundingBox | BVHNode.h:65-68 | a node returns its stored box |
| Objects.SphereQuadratic | Scene.h:42-50 | `a = |d|² >= 0`, `h = (o - centre)·d`, `c = |o - centre|² - r²`, and the discriminant is `h² - a·c` |
| Objects.SphereQuadraticAlongRay | Scene.h:42-50 | for every `t`, `|o + t·d - centre|² - r² == a·t² + 2h·t + c`, so the quadratic's roots are the ray's crossings of the sphere |
| Objects.SphereRootOnSphere | Scene.h:50-68 | with a true `sqrt`, a root the sphere returns is a point at distance `radius` from the centre, and the stored normal has unit length |
| Objects.SphereRoot | Scene.h:50-65 | no root for a negative discriminant. Otherwise the nearer root if the interval surrounds it, else the farther one if surrounded, else none; a returned root is always surrounded |
| Objects.SphereHit | Scene.h:67-75 | the record holds the point at `t`, the normal `(p - centre) / radius` and the material; front face exactly when `d·normal < 0` |
| Objects.PlaneRayHit | Scene.h:87-107 | no hit when `|d.y| < 1e-8`. A hit is strictly inside the interval, with normal `(0, 1, 0)`, at the plane's height, front face exactly when `d.y < 0`. A non-parallel crossing inside the interval is always reported |
| Objects.PlaneHitHeight | Scene.h:95-99 | the plane's hit point lies at the plane's height `y` |
| Objects.RayHit | Scene.h:32-35 | every object's hit lies strictly inside the interval, and its front-face flag says whether the ray runs against the stored normal |
| Objects.NearerHit | BVHNode.h:51-62 | no hit only if neither child hits. Of two hits the strictly nearer left one wins, otherwise the right one; the result is never farther than either |
| Objects.PrimitiveNarrowing | Scene.h:57-65 | for a sphere or a plane, a hit in the narrowed interval `(min, closestSoFar)` is the hit for the whole interval, and a hit for the whole interval that lies in the narrowed one is still found there |
| Objects.ScanFrom | Scene.h:130-144 | the scan returns the record it started with or a hit strictly inside `(min, closestSoFar)` |
| Scenes.Scene.constructor | Scene.h:116 | a default scene is empty |
| Scenes.Scene.FromObject | Scene.h:118-120 | `Scene(o)` holds exactly `o` |
| Scenes.Scene.Add | Scene.h:122-124 | `add` appends at the end |
| Scenes.Scene.Clear | Scene.h:126-128 | `clear` leaves the list empty |
| Scenes.Scene.RayHit | Scene.h:130-144 | the narrowing loop computes `Objects.RayHit` of the scene, and its hit is surrounded by the interval |
| Scenes.ScanMissesExactly | Scene.h:135-143 | a scan from any position finds nothing exactly when no remaining member hits in the whole interval |
| Scenes.SceneMissesExactly | Scene.h:130-144 | `Scene::rayHit` returns no hit exactly when no member reports a hit |
| Scenes.ScanKeepsAHit | Scene.h:135-143 | once a hit is accepted, the scan never returns nothing |
| Scenes.ScanLastAcceptedWins | Scene.h:135-143 | when every member from `k` to the second-to-last misses the narrowed interval, the last member's hit, if any, replaces the record and is returned |
| Scenes.ScanFindsNearest | Scene.h:135-143 | for spheres and planes: the scan returns no hit only if every remaining member misses, a hit no farther than any remaining member's; and either the record it started with or the hit of a member before which every member misses or hits strictly farther, nearer than `closestSoFar` |
| Scenes.SceneFindsNearest | Scene.h:130-144 | for spheres and planes `Scene::rayHit` returns the nearest hit: never farther than any member's hit over the whole interval, and the hit of the first member at that distance, so the earlier member wins a tie |
| Bvh.InsertByKey | BVHNode.h:39 | insertion adds exactly one element and keeps all the others |
| Bvh.InsertByKeySorted | BVHNode.h:39 | inserting into a key-ordered sequence keeps it ordered |
| Bvh.SortByKey | BVHNode.h:39 | the reference sort returns a permutation of its input |
| Bvh.SortByKeySorted | BVHNode.h:39 | the reference sort's result is ordered by the comparator's key |
| Bvh.SortByKeyIsKeySort | BVHNode.h:39 | the reference sort meets what `std::sort` with the comparator guarantees |
| Bvh.MakeNode | BVHNode.h:44 | the node's box encloses both children's boxes |
| Bvh.Lower | BVHNode.h:39-41 | the left half has `span / 2` objects |
| Bvh.Upper | BVHNode.h:39-42 | the right half has `span - span / 2` objects, and the two halves make up the sorted range |
| Bvh.BuildTree | BVHNode.h:11-45 | the constructor always yields a node |
| Bvh.Arranged | BVHNode.h:19-43 | the range after construction is as long as before |
| Bvh.Build | BVHNode.h:11-45 | the in-place constructor returns `BuildTree` of the range, leaves the range as `Arranged` says, and leaves the rest of the array alone |
| Bvh.BuildSplit | BVHNode.h:37-43 | for more than two objects: sort, split at `start + span / 2`, and build both halves, as the specification functions say |
| Bvh.SortRange | BVHNode.h:39 | `std::sort` on `[start, end)` replaces the range by the sort's result on the old range and leaves the rest of the array untouched |
| Bvh.ArrangedPermutes | BVHNode.h:39-42 | construction only permutes the range |
| Bvh.SplitPermutes | BVHNode.h:39-42 | the two halves together hold the objects of the range |
| Bvh.BuildKeepsLeaves | BVHNode.h:19-44 | the tree's leaves are exactly the objects of the range |
| Bvh.BuildEncloses | BVHNode.h:44 | the root box encloses the box of every object of the range |
| Bvh.TraversalFindsNearest | BVHNode.h:46-63 | when every box test passes, the tree hits exactly when a leaf does, returns a leaf's hit, and no leaf hits nearer |
| Bvh.PairOrder | BVHNode.h:24-36 | with two objects the first goes left exactly when its key is strictly smaller; on a tie the second goes left |
| Bvh.CallDepth | BVHNode.h:40-42 | counted over range sizes: every range needs at least one constructor call |
| Bvh.CallDepthFollowsSplit | BVHNode.h:39-42 | for more than two objects the call depth is one more than the deeper of the two halves `BuildTree` passes to the child constructors |
| Bvh.CallDepthLogarithmic | BVHNode.h:40-42 | for `n >= 2` objects, `2^(d-1) < n <= 2^d` where `d` is the nesting depth, so `d == ceil(log2 n)` |
| Bvh.CallDepthMonotone | BVHNode.h:40-42 | more objects never need a shallower recursion |
| Cameras.MakeCamera | Camera.h:13-31 | centre is the camera position; `horizontalStep == (2/H, 0, 0)` whatever the aspect ratio; `verticalStep == (0, -2/H, 0)`; `pixel00 == imagePlaneCentre + (1/H - aspect, 1 - 1/H, 0)` |
| Cameras.StepWidth | Camera.h:18-25 | `viewportWidth / imageWidth == 2 / imageHeight` |
| Cameras.RayThroughImagePoint | Camera.h:33-35 | `getRay(x, y)` starts at the camera centre and passes through the image point at pixel coordinates `(x, y)` |
| Cameras.ImagePointOffsets | Camera.h:17-34 | image point `(x, y)` lies at `((2x + 1)/H - aspect, 1 - (2y + 1)/H)` from the image-plane centre |
| Cameras.RayThroughImagePlane | Camera.h:13-35 | every ray starts at the camera position and reaches the image plane at those offsets |
| Cameras.DefaultFirstPixel | Camera.h:13-29 | the default camera's pixel (0, 0) centre is half a pixel in from the corner `(-1, 1, -1)` |
| Cameras.DefaultLowerRightCorner | Camera.h:13-29 | the default camera's coordinate `(511.5, 511.5)` is the viewport corner `(1, -1, -1)` |
| Cameras.NeighbourRays | Camera.h:34 | `getRay(x + 1, y)` differs in direction by `horizontalStep`, `getRay(x, y + 1)` by `verticalStep`, with the same origin |
| Cameras.DefaultCameraLooksDownZ | Camera.h:13-34 | the default camera's ray through `(255.5, 255.5)` starts at the origin with direction `(0, 0, -1)` |
| Cameras.SquarePixels | Camera.h:17-26 | the two steps are equally long and perpendicular |
| RenderUtils.WorldOf | RenderUtils.h:34 | the world `rayColor` queries is the object's `rayHit` |
| RenderUtils.SkyColor | RenderUtils.h:82-88 | with a true `sqrt`, each sky component lies between those of the top and bottom sky colours |
| RenderUtils.RayColor | RenderUtils.h:27-90 | black when `depth <= 0` |
| RenderUtils.MissShowsSky | RenderUtils.h:82-88 | a ray that hits nothing shows the sky blend, which lies in the sky range |
| RenderUtils.LightShowsItsEmission | RenderUtils.h:34-79 | a ray that hits a light shows exactly the light's emission |
| RenderUtils.BouncesBounded | RenderUtils.h:49-54 | a path of depth `d` uses only the draws at depths `d .. 1`, so it recurses at most `d` times |
| RenderUtils.RayColorNonNegative | RenderUtils.h:27-90 | with non-negative materials and a true `sqrt`, no ray carries negative light |
| RenderUtils.SampleSum | RenderUtils.h:100-108 | an empty accumulation is black |
| RenderUtils.UniformSampleSum | RenderUtils.h:100-108 | `n` samples of colour `c` accumulate to `n * c` |
| RenderUtils.UniformPixel | RenderUtils.h:100-110 | a pixel whose samples all have colour `c` stores `sqrt` of each component of `c` |
| RenderUtils.UniformAverage | RenderUtils.h:110 | `correctedAverage(n)` of `n * c` is `sqrt` of each component of `c` |
| RenderUtils.SampleSumNonNegative | RenderUtils.h:100-108 | a sum of non-negative samples is non-negative |
| RenderUtils.PixelNonNegative | RenderUtils.h:96-111 | with non-negative materials every stored pixel is non-negative |
| RenderUtils.PixelIndexInBounds | RenderUtils.h:111 | `j * W + i` lies in `[0, W * H)` for every pixel of the image |
| RenderUtils.PixelIndexInjective | RenderUtils.h:111 | distinct pixels have distinct indices |
| RenderUtils.IndexToPixel | RenderUtils.h:111 | index `j * W + i` belongs to column `i` and row `j` |
| RenderUtils.PixelStored | RenderUtils.h:96-112 | in rendered rows, index `j * W + i` holds pixel `(i, j)` |
| RenderUtils.PaintRowRenders | RenderUtils.h:98-112 | painting a row renders its indices and changes nothing else |
| RenderUtils.PaintedRenders | RenderUtils.h:96-115 | painting rows `[s, e)` renders indices `[s * W, e * W)` and changes nothing else |
| RenderUtils.PaintedCompose | RenderUtils.h:127-137 | painting `[a, b)` and then `[b, c)` is painting `[a, c)` |
| RenderUtils.RowRange | RenderUtils.h:125-130 | each worker's range lies within `[0, H]` and is ordered |
| RenderUtils.RowRangesContiguous | RenderUtils.h:127-130 | the first range starts at 0, each ends where the next starts, and the last ends at `H`, so the ranges partition `[0, H)` |
| RenderUtils.RowRangeSizes | RenderUtils.h:125-130 | every worker but the last gets `H / T` rows; the last also takes the remainder `H % T` |
| RenderUtils.RowOwnedByOneWorker | RenderUtils.h:125-134 | every row belongs to the range of exactly one worker |
| RenderUtils.RowCounter.constructor | Renderer.h:29-30 | the row counter starts at zero |
| RenderUtils.SamplePixel | RenderUtils.h:100-110 | the sample loop's `+=` accumulation and `correctedAverage` compute the pixel's colour |
| RenderUtils.RenderRow | RenderUtils.h:98-112 | one row is written column by column at `j * W + i`, and nothing else changes |
| RenderUtils.RenderRowsWith | RenderUtils.h:96-115 | the row loop for any tracing setting: rows `[startRow, endRow)` are painted in order, and the counter advances by one per row |
| RenderUtils.RenderRows | RenderUtils.h:92-116 | rows `[startRow, endRow)` are painted with pixels traced from the camera and world passed in to depth 10, and the counter advances by one per row |
| RenderUtils.RenderMultithreadWith | RenderUtils.h:125-137 | the worker loop for any tracing setting: the workers together paint every row once, and the counter advances by `H` |
| RenderUtils.RenderMultithread | RenderUtils.h:118-138 | every index `j * W + i` holds pixel `(i, j)` traced from the camera and world passed in to depth 10, and the counter advances by `H` |
| Renderers.DefaultParametersValues | Renderer.h:14-23 | defaults are 512 x 512 (262144 cells), 10 samples, depth 25, black background and `image.ppm` |
| Renderers.Renderer.constructor | Renderer.h:29-30 | a black frame buffer of `W * H` cells and a counter at zero |
| Renderers.Renderer.RenderRows | Renderer.h:118-134 | paints rows `[startRow, endRow)` traced to `maximumRecursionDepth`, and counts them |
| Renderers.Renderer.RenderMultithread | Renderer.h:136-151 | every index of the frame buffer holds its pixel traced to `maximumRecursionDepth` |
| Renderers.Renderer.Render | Renderer.h:31-36 | after `render`, pixel `(i, j)` is at index `j * W + i`, and every row has been counted |

## Left out

- File output and console output are not modelled: `writeOutput`, both `updateProgressBar` functions, the thread-count message and main.cpp. They write PPM text and progress bars, and their logic is only the channel conversion `Colors.Channel`.
- Threads are modelled sequentially. `RenderMultithread` runs the workers one after another. Their writes go to disjoint row ranges, so the final frame buffer is the same in any interleaving. The atomic counter is a plain field.
- RenderUtils.RenderMultithread: requires `threadCount >= 1`. `std::thread::hardware_concurrency()` may return 0, and the source then divides by zero.
- Randomness is an input. This covers `randomDouble`, `randomInt` and the `Vector3::random*` helpers, whose rejection loops have no termination bound. The BVH axis is `axisFor(start, end)`, a bounce's random vector is `bounce(i, j, s)(depth)`, and the pixel jitter is `jitter(i, j, s)`.
- `AABB::hit` is a parameter (`BoxTest`). Its loop reads `intervalMin` and `intervalMax` before they are initialised and never reads the interval, so its result is not determined by its inputs.
- `sqrt`, `length` and `unitVector` are modelled only through a `sqrt` parameter. `refractionAboutNormalVector` and the Dielectric and Checker materials, which no header of the core defines, are not part of this model. The same goes for `MaterialFactory.h`.
- RenderUtils.RayColor: the direct-light term is not modelled and is black. It needs `Sphere::randomPointOnSurface` and `Sphere::material`, which the shown `Sphere` lacks. The `Checker` base-colour switch is also not modelled.
- Renderers.Renderer.Render: the output file is not written; the contract ends at the filled frame buffer.
- IEEE-754 rounding and NaN are not modelled. Where the source produces NaN, the model takes an explicit case:
  - `inf - inf` in `size()` is `None`;
  - the sphere root for a zero direction is no hit;
  - the unit vector of the zero vector is the zero vector.
- Colors.Color3.CorrectedAverage: requires `samplesPerPixel != 0`. With 0 the source computes `1.0 / 0` and stores NaN components.
- Integer widths are not modelled: `j * imageWidth + i` and `imageWidth * imageHeight` are unbounded integers, so `int` overflow for very large images is not captured.
- Renderers.Renderer.constructor: requires non-negative dimensions. A negative product would be converted to a huge `size_t` for the `std::vector`.
- Vectors.Vector3.Div: requires `scale != 0`. With 0 the source divides by zero and yields infinite or NaN components, which the model drops.
- Vectors.MutableVector3.DivAssign: requires `scale != 0`, for the same reason: `1 / 0` is not modelled.
- Colors.MutableColor3.DivAssign: requires `scale != 0`. With 0 the source stores infinite or NaN components.
- Cameras.MakeCamera: requires `imageHeight != 0` and `aspectRatio != 0`. With either 0 the source divides the viewport by a zero image width or height, and the pixel steps would be infinite or NaN.
- Bvh.Build: requires `start < end`. With an empty range the source recurses on the same range forever.
- Bvh.Build: takes the sort as a parameter, because `std::sort` is not stable. The model accepts any permutation ordered by key (`Bvh.IsKeySort`). `Bvh.SortByKey` is one such order, not necessarily the one `std::sort` produces.
- The Scene.h and BVHNode.h snapshots disagree on `Object`: Scene.h declares no `boundingBox()`, while BVHNode.h overrides one. The model has one `Object` datatype with both operations. Leaf boxes come from a parameter `leafBox`. Spheres and planes carry a material, which Scene.h comments out.
- The `Hit` value is the record that intersection routines return. The `HitRecord` class models only the setter interface.
- Memory ownership of `new`-allocated BVH children and raw `Object*` pointers is not modelled.

## Findings

| source | as written | input that shows it | evidently intended | confidence | as-written member | corrected member |
|---|---|---|---|---|---|---|
| Vector3.h:20 | `operator-()` returns `{*this}`, a copy of the vector, so unary minus does not negate | `-Vector3(1, 0, 0)` is `(1, 0, 0)` | component-wise negation `(-x, -y, -z)` | not executed | Vectors.Vector3.NegAsWritten | Vectors.Vector3.Neg |
| HitRecord.h:25 | through that unary minus, `setFrontFace` stores the outward normal on back faces too | `setFrontFace((0, 1, 0), (0, 1, 0))` stores `(0, 1, 0)`, pointing along the ray | the negated outward normal on a back face, so that the stored normal always faces against the ray | not executed | HitRecords.HitRecord.SetFrontFace | HitRecords.HitRecord.SetFrontFaceCorrected |
