# A verified model of the `engine/` ray tracer

This project models the ray-tracing engine of the repository: its vector helpers, rays and hit records, the camera, sphere and assembly intersection, the three materials, the recursive colour integrator and the render loop. Everything is stated over Dafny's `real` rather than IEEE doubles. Every random draw is an explicit input.

Modules, one per engine file, plus two shared ones:

- `Vectors` (`vectors.dfy`): the numpy vector arithmetic the engine uses (`+`, `-`, scaling, `np.dot`, `np.cross`, `np.linalg.norm`) and the algebra the proofs need (Cauchy–Schwarz, Lagrange's identity).
- `Options` (`options.dfy`): Python's `None`, as `Option`.
- `Rays` (`ray.dfy`): `Ray` and `point_at_parameter`.
- `HitRecords` (`hit_record.dfy`): `HitRecord` and the unit-normal check in its constructor.
- `Utils` (`utils.dfy`):
  - `unit_vector`;
  - the two rejection samplers, as `while` loops over a supplied sequence of draws.
- `Cameras` (`camera.dfy`): the camera value built by `Camera.__init__`, and `get_ray`.
- `Materials` (`material.dfy`):
  - `Lambertian`, `Metal` and `Dielectric` and their `scatter`;
  - `reflect`, `refract` and `schlick`.
- `Surfaces` (`surface.dfy`):
  - `Sphere.hit`, against a reference definition of "hit at t" (`Qualifies`, `Nearest`);
  - the assembly scan, as a pure function and as the class `SurfaceAssembly`, whose `Hit` loop is proved equal to that function;
  - the finding below.
- `Rendering` (`rendering.dfy`):
  - `ray_color`, as a function of a stream of scatter draws;
  - `render_image`, as a method with nested loops that fills a flipped `array2` of pixels.

`np.sqrt` is a parameter `sqrt: real -> real` constrained by `IsSqrt` (non-negative and squaring back on non-negative inputs). The square root is unique, so the model is still fully determined (`Vectors.SqrtUnique`).

## Model

| member | source | states |
|---|---|---|
| Vectors.Norm | engine/utils.py:6 | `np.linalg.norm`: non-negative, its square is v·v, and it is 0 exactly for the zero vector |
| Rays.PointAt | engine/ray.py:12-14 | the point at parameter 0 is the origin, and point − origin = t·direction |
| Rays.PointAtStep | engine/ray.py:12-14 | moving along a ray is affine: point(t1 + t2) − point(t1) = t2·direction |
| HitRecords.NewHitRecord | engine/hit_record.py:9-16 | the constructor demands a unit normal and stores point, normal and material unchanged |
| Utils.UnitVector | engine/utils.py:4-11 | the zero vector comes back unchanged; any other v gives a unit vector r with norm(v)·r = v and norm(v) > 0, so r is a positive multiple of v; every component lies in [−1, 1] |
| Utils.UnitVectorIsUnit | engine/utils.py:6-8 | v / n is a unit vector and n·(v / n) = v when n > 0 and n² = v·v |
| Utils.UnitInBox | engine/utils.py:8 | every component of a unit vector lies in [−1, 1] |
| Utils.RandomInUnitDisk | engine/utils.py:14-19 | returns the first candidate 2r − 1 with p·p < 1, with its index; every earlier candidate was rejected |
| Utils.RandomInUnitSphere | engine/utils.py:22-27 | the same for the ball: the first accepted candidate, p·p < 1, earlier ones rejected |
| Utils.DiskCandidateInSquare | engine/utils.py:17 | for draws in [0, 1) each candidate component 2r − 1 lies in [−1, 1) |
| Utils.BallCandidateInCube | engine/utils.py:25 | the same for the three components of a ball candidate |
| Utils.InUnitBallBounded | engine/utils.py:26-27 | an accepted ball sample has every component strictly inside (−1, 1) |
| Cameras.MakeCamera | engine/camera.py:8-36 | lens radius = aperture / 2 and origin = lookfrom; for lookfrom ≠ lookat, w is the unit vector with norm·w = lookfrom − lookat; when vup × w ≠ 0, u is the unit vector with norm·u = vup × w (not its mirror image); v = w × u; horizontal = 2·half_width·focus_dist·u and vertical = 2·half_height·focus_dist·v; the window centre is lookfrom − focus_dist·w |
| Cameras.Frame | engine/camera.py:21-36 | stores lens radius, origin and basis; horizontal = 2x·u, vertical = 2y·v, and lower_left + horizontal/2 + vertical/2 = origin − f·w |
| Cameras.MakeCameraOrthonormal | engine/camera.py:27-29 | when lookfrom ≠ lookat and vup × w ≠ 0, u, v, w are pairwise orthogonal unit vectors with v = w × u |
| Cameras.UnitAlongIsOrthogonal | engine/camera.py:28 | normalising a vector orthogonal to w keeps it orthogonal to w |
| Cameras.CrossOfOrthonormal | engine/camera.py:29 | w × u of orthogonal unit vectors is a unit vector orthogonal to both |
| Cameras.FocusWindowSize | engine/camera.py:24-36 | horizontal has squared length (2·aspect·half_height·focus_dist)², vertical (2·half_height·focus_dist)², and they are orthogonal |
| Cameras.GetRay | engine/camera.py:38-54 | whatever the lens draw, the ray reaches the window point (s, t) at parameter 1; with lens radius 0 it starts at the camera origin |
| Cameras.RayStartsOnLens | engine/camera.py:50-52 | the origin offset is orthogonal to w with squared length lens_radius²·(rd·rd), strictly below lens_radius² for a draw inside the unit disk |
| Cameras.PlaneCombination | engine/camera.py:51 | p·u + q·v is orthogonal to w and has squared length p² + q² for an orthonormal basis |
| Cameras.RayDepth | engine/camera.py:31-53 | for an orthonormal camera every ray direction has component −focus_dist along w: the window is the plane at depth focus_dist |
| Cameras.DirectionInBasis | engine/camera.py:31-53 | the direction is (2xs − x − rd0)·u + (2yt − y − rd1)·v − f·w |
| Cameras.PinholeCentreRay | engine/camera.py:50-53 | with aperture 0 and s = t = 1/2 the ray is Ray(lookfrom, −focus_dist·w) |
| Cameras.PinholeRay | engine/camera.py:50-53 | with lens radius 0 the ray starts at the origin and points at the window point |
| Materials.MakeMetal | engine/material.py:46-48 | fuzz = min(f, 1): clamped from above only, the albedo is stored |
| Materials.Reflect | engine/material.py:94-97 | for a unit n: r·n = −(v·n), \|r\| = \|v\|, and the part of v along the plane is kept |
| Materials.ReflectInvolution | engine/material.py:94-97 | reflecting twice at the same plane gives v back |
| Materials.Refract | engine/material.py:100-112 | for unit v and n: None exactly when 1 − k²(1 − dt²) ≤ 0; otherwise a unit vector on the far side of n whose tangential part is k times that of v (Snell's law) |
| Materials.RefractedUnit | engine/material.py:107-110 | the refracted vector has unit length and component −sqrt(discriminant) along n |
| Materials.PowMonotone | engine/material.py:118 | x ↦ xⁿ is monotone on non-negative reals |
| Materials.PowOne | engine/material.py:118 | 1ⁿ = 1, a helper that bounds the Schlick term (1 − cosine)⁵ by 1 |
| Materials.Schlick | engine/material.py:115-118 | schlick(1, r) = r0; for r ≥ 0 and a cosine in [0, 1] the value lies in [r0, 1] |
| Materials.SchlickR0Bounded | engine/material.py:117 | r0 = ((1 − r)/(1 + r))² lies in [0, 1] for r ≥ 0 |
| Materials.SchlickMonotone | engine/material.py:115-118 | for r ≥ 0, schlick does not decrease as the cosine falls from 1 to 0 |
| Materials.DielectricRefracted | engine/material.py:75-80 | an exiting ray (cosine > 0) refracts at −n with ref_idx, an entering one at n with 1 / ref_idx; any result is a unit vector |
| Materials.ReflectProbability | engine/material.py:82-85 | 1 when refract gives None, otherwise schlick(cosine, ref_idx) at the cosine of incidence; a probability in [0, 1] for ref_idx ≥ 0 |
| Materials.DielectricCosineBounded | engine/material.py:75-80 | the cosine handed to schlick lies in [0, 1] |
| Materials.Scatter | engine/material.py:26-91 | any scattered ray starts at rec.point; dielectrics never absorb and attenuate by (1, 1, 1); the other materials attenuate by their albedo; Lambertian surfaces always scatter |
| Materials.LambertianScatters | engine/material.py:35-37 | the result is (Ray(rec.point, normal + sample), albedo); a sample inside the unit ball leaves on the normal's side |
| Materials.MetalAbsorbs | engine/material.py:50-57 | no ray exactly when (reflect(unit(dir), n) + fuzz·sample)·n ≤ 0, and otherwise the ray Ray(rec.point, reflect(unit(dir), n) + fuzz·sample); the albedo is reported either way |
| Materials.MirrorScattersFrontRays | engine/material.py:50-57 | with fuzz 0 a metal scatters exactly the rays with dir·n < 0, along reflect(unit(dir), n) from rec.point |
| Materials.DielectricScatters | engine/material.py:68-91 | a unit ray from rec.point with attenuation (1, 1, 1), along the reflected or the refracted direction; always reflected when refract gives None, and otherwise reflected exactly when the draw is below schlick(cosine, ref_idx) |
| Surfaces.EvalIsDistance | engine/surface.py:58-62 | a t² + 2b t + c = \|P(t) − center\|² − radius² |
| Surfaces.Roots | engine/surface.py:59-66 | t1 ≠ 0, t2 = −(b − sign(b)s)/a, t1 ≠ t2, t1 + t2 = −2b/a, t1·t2 = c/a, and both are zeros of the quadratic |
| Surfaces.RootsVieta | engine/surface.py:65-66 | the closed form of t2 and Vieta's relations for t1 and t2 |
| Surfaces.RootOf | engine/surface.py:65 | −(b ± s)/a is a zero of the quadratic when s² is the discriminant |
| Surfaces.OnlyRoots | engine/surface.py:62-66 | every zero of the quadratic is t1 or t2 |
| Surfaces.DiscriminantPositive | engine/surface.py:62-63 | a positive discriminant implies a > 0, a non-zero direction and radius ≠ 0, so the divisions by a and by radius are defined |
| Surfaces.NormalIsUnit | engine/surface.py:70-71 | (point − center)/radius has unit length on the sphere, for negative radii too, and its component along point − center is the radius |
| Surfaces.SphereRecord | engine/surface.py:70-72 | the record holds point_at_parameter(t), a unit normal and the sphere's material; normal·(point − center) = radius, so the normal points outward for a positive radius and inward for a negative one |
| Surfaces.QualifiesMovingRay | engine/surface.py:58-63 | a surface is hit only by a ray with a non-zero direction |
| Surfaces.RecordAt | engine/surface.py:36-41 | a surface has a record at t exactly when it is hit at t; the record's point is on the ray and its normal is a unit vector |
| Surfaces.RecordAtAny | engine/surface.py:36-41 | the same for the members of an assembly: a record at t exactly when some member is hit at t, with the point on the ray and a unit normal |
| Surfaces.SortedRoots | engine/surface.py:65-68 | sorted([t1, t2]) is strictly ascending, is {t1, t2}, satisfies Vieta's relations and lists every zero of the quadratic |
| Surfaces.SphereQualifiesAtZeros | engine/surface.py:58-63 | with a positive discriminant the sphere is hit at t exactly when t is a zero of the quadratic |
| Surfaces.FirstInRange | engine/surface.py:68-69 | the smaller candidate in [t_min, t_max), else the larger one, else none |
| Surfaces.FirstInRangeSymmetric | engine/surface.py:68 | the choice does not depend on the order of the candidates |
| Surfaces.SphereHit | engine/surface.py:54-73 | the nearest hit in [t_min, t_max): the least t in range where the sphere is hit, with its record, or (None, t_max) when there is none (in particular when b² − a c ≤ 0) |
| Surfaces.SurfaceHit | engine/surface.py:29-73 | the nearest hit of a sphere or an assembly in [t_min, t_max) |
| Surfaces.ScanHit | engine/surface.py:29-41 | the assembly scan returns the nearest hit of all members, or (None, t_max); on equal t the earlier member's record is kept |
| Surfaces.AssemblySplit | engine/surface.py:36-40 | an assembly is hit at t when its leading members or its last member are, and its record is the leading members' record if any |
| Surfaces.ScanNonIncreasing | engine/surface.py:35-40 | adding a member never raises the reported parameter, and it never exceeds t_max |
| Surfaces.SphereHitAsWritten | engine/surface.py:62-73 | the written root choice with `np.sign`: any parameter it picks, where it goes on to build the record, lies in [t_min, t_max) |
| Surfaces.RootChoiceAsWritten | engine/surface.py:65-72 | the written root choice only reports candidates in [t_min, t_max) |
| Surfaces.AsWrittenAgreesOffZero | engine/surface.py:65 | for b ≠ 0 the written test and the model's test report the same hit |
| Surfaces.RootChoiceOffZero | engine/surface.py:65-68 | for b ≠ 0 the written root choice equals the model's |
| Surfaces.CentredQuadratic | engine/surface.py:58-61 | a ray from the centre with a unit direction has a = 1, b = 0, c = −radius² |
| Surfaces.QuadraticTerms | engine/surface.py:58-61 | a = d·d, b = oc·d, c = oc·oc − radius² |
| Surfaces.UnitQuadraticDiscriminant | engine/surface.py:62 | with a = 1, b = 0, c = −radius² the discriminant is radius² |
| Surfaces.CentredDiscriminant | engine/surface.py:62-63 | such a ray's discriminant is radius² > 0 |
| Surfaces.CentredOnSphere | engine/surface.py:70 | its point at t is on the sphere exactly when t² = radius² |
| Surfaces.CentredRayCrossesAtRadius | engine/surface.py:58-63 | it is hit at t = radius |
| Surfaces.CentredRayNoEarlierCrossing | engine/surface.py:58-63 | it is not hit anywhere in [0, radius) |
| Surfaces.CentredInside | engine/surface.py:70 | points at parameters in [0, radius) are strictly inside the sphere |
| Surfaces.RootChoiceCentred | engine/surface.py:65-69 | with a = 1 and b = 0 the written choice reports 0 if t_min ≤ 0 < t_max, and nothing otherwise |
| Surfaces.HitAtFirstCrossing | engine/surface.py:68-72 | when t is the first parameter in range where the surface is hit, the query reports t and the point there |
| Surfaces.CorrectedHitsCentredRay | engine/surface.py:65-72 | with sign(0) = +1 a ray from the centre is hit at t = radius, at center + radius·d |
| Surfaces.AsWrittenMissesCentredRay | engine/surface.py:65-73 | as written the same ray is reported as a miss for 0 < t_min ≤ radius < t_max, though it crosses the sphere at t = radius |
| Surfaces.AsWrittenHitsCentre | engine/surface.py:65-72 | as written, for t_min ≤ 0 < t_max the root choice picks t = 0, the ray's origin, which is not on the sphere; the normal computed there is the zero vector, so the `HitRecord` assertion (hit_record.py:13) raises instead of a hit being reported |
| Surfaces.SurfaceAssembly.constructor | engine/surface.py:23-24 | a new assembly holds no objects |
| Surfaces.SurfaceAssembly.AddObject | engine/surface.py:26-27 | the surface is appended at the end; earlier members and their order are unchanged |
| Surfaces.SurfaceAssembly.Hit | engine/surface.py:29-41 | the loop computes the scan `ScanHit` of the members, which is the nearest hit of the assembly; closest_so_far ends at most t_max |
| Rendering.RecordMaterialIn | engine/rendering.py:53 | the material of a hit record is one of the scene's materials |
| Rendering.RecordMaterialInAll | engine/rendering.py:53 | the same for the members of an assembly |
| Rendering.Sky | engine/rendering.py:61-64 | the background colour has every channel in [0.5, 1] and blue channel 1 |
| Rendering.SkyBlend | engine/rendering.py:63-64 | for t in [0, 1] the blend has every channel in [0.5, 1] and blue channel 1 |
| Rendering.SkyBlendIsLerp | engine/rendering.py:64 | the blend is (1 − t)(1, 1, 1) + t(0.5, 0.7, 1.0): white at t = 0, (0.5, 0.7, 1.0) at t = 1 |
| Rendering.SkyStraightUp | engine/rendering.py:62-64 | straight up the sky is (0.5, 0.7, 1.0) |
| Rendering.SkyStraightDown | engine/rendering.py:62-64 | straight down the sky is white |
| Rendering.UnitOfUnit | engine/utils.py:4-8 | normalising a unit vector leaves it unchanged |
| Rendering.MulBounds | engine/rendering.py:57 | the channel-wise product keeps non-negative colours non-negative and colours in [0, 1] in [0, 1] |
| Rendering.RayColor | engine/rendering.py:39-64 | a colour exists whenever every dielectric of the scene has ref_idx ∉ {0, −1}; it is non-negative when no albedo is negative, and lies in [0, 1] per channel when every albedo does |
| Rendering.RayColorScatters | engine/rendering.py:54-57 | a hit that scatters with depth left has colour attenuation × ray_color(scattered, depth − 1) with the next draw, and fails only when that colour fails |
| Rendering.RayColorBlack | engine/rendering.py:52-59 | a hit with no depth left, or whose material absorbs the ray, is black |
| Rendering.RayColorMiss | engine/rendering.py:51-64 | when the query on [0.001, 1e6) reports nothing, no surface is hit in that range and the colour is the sky's |
| Rendering.RayColorUsesDraws | engine/rendering.py:54-57 | the recursion consumes at most depth + 1 draws: two draw streams that agree on k .. k + depth give the same colour |
| Rendering.RayColorBounce | engine/rendering.py:54-57 | one scattering level: equal draws at k and equal colours further on give equal colours |
| Rendering.RayColorNoBounce | engine/rendering.py:51-64 | a level that does not recurse depends only on the draw at k |
| Rendering.QuotientBelowOne | engine/rendering.py:27-28 | a / b lies in [0, 1) for 0 ≤ a < b |
| Rendering.SampleCoordinate | engine/rendering.py:27-28 | (i + r)/n lies in [0, 1) for i < n and a draw r in [0, 1) |
| Rendering.RoundHalfEven | engine/rendering.py:34 | `np.round`: within 1/2 of the input, ties going to the even integer |
| Rendering.Channel | engine/rendering.py:34 | the stored 8-bit value is in [0, 256), and is round(255·sqrt(x)) itself for x in [0, 1] |
| Rendering.GammaInRange | engine/rendering.py:34 | round(255·sqrt(x)) lies in [0, 255] for x in [0, 1] |
| Rendering.Quantize | engine/rendering.py:33-34 | a pixel of three 8-bit channels, each round(255·sqrt(channel)) for a colour in [0, 1] |
| Rendering.SampleColour | engine/rendering.py:26-30 | a sample colour exists when the scene's dielectrics are defined; it is non-negative, and in [0, 1] when the albedos are |
| Rendering.Samples | engine/rendering.py:25-30 | the ns sample colours of a pixel, sample s at position s |
| Rendering.TotalBounds | engine/rendering.py:24-30 | non-negative samples sum to a non-negative colour, and n samples in [0, 1] sum to one in [0, n] |
| Rendering.TotalFails | engine/rendering.py:25-30 | the running sum fails exactly when some sample fails |
| Rendering.TotalNone | engine/rendering.py:25-30 | once a prefix fails, the whole sum fails |
| Rendering.TotalStep | engine/rendering.py:30 | `col += ray_color(...)` extends the running sum by the next sample |
| Rendering.AverageBounds | engine/rendering.py:31 | `col /= ns` maps [0, ns] into [0, 1] and keeps non-negative colours non-negative |
| Rendering.PixelColour | engine/rendering.py:24-31 | the averaged colour of a pixel exists when the scene's dielectrics are defined; it is non-negative, and in [0, 1] when the albedos are |
| Rendering.PixelFails | engine/rendering.py:24-31 | a pixel fails exactly when one of its samples fails |
| Rendering.SamplePixel | engine/rendering.py:24-31 | the sampling loop computes `PixelColour`: the sum of the ns sample colours divided by ns, or failure |
| Rendering.ExpectedImage | engine/rendering.py:21-34 | the image the loops must produce, pixel by pixel |
| Rendering.RenderPixel | engine/rendering.py:24-34 | one pass of the inner loop body yields the expected pixel (i, j) |
| Rendering.RenderImage | engine/rendering.py:6-36 | an nx × ny buffer; the render fails exactly when some pixel fails, never when the scene's dielectrics are defined, and otherwise cell (i, ny − 1 − j) holds pixel (i, j) for every i, j |

## Left out

- Floating point: everything is over `real`. The norm tolerances `1e-11` and `1e-13` in the assertions of `reflect`, `refract` and `HitRecord` become exact preconditions (`IsUnit`). Rounding, NaN and infinities are not modelled, except the one infinity described in the finding.
- `np.sqrt` is the parameter `sqrt` constrained by `IsSqrt`. `np.tan(vfov / 2)` is the camera input `halfHeight`.
- `np.random`: every draw is an input. The sample `random_in_unit_sphere` returns to `scatter`, and the lens point `random_in_unit_disk` returns to `get_ray`, are given directly. Uniformity and the distributions are not modelled.
- Utils.RandomInUnitDisk: requires that the supplied draws contain an accepted candidate, because the `while True` loop of the source runs on until it finds one and a finite sequence of draws cannot express that.
- Utils.RandomInUnitSphere: the same precondition, for the same reason.
- Materials.Scatter: does not require the supplied ball sample to lie in the unit ball. `LambertianScatters` states what such a sample gives.
- Rendering.RenderImage: requires `ns > 0` and that no albedo has a negative channel. Otherwise `col /= ns` divides by zero, or `np.sqrt` of a negative channel gives NaN, whose integer cast numpy leaves unspecified.
- Rendering.PixelAt: the same two preconditions.
- Rendering.Channel: the store of a value above 255 into the `uint8` buffer is taken to keep it modulo 256. Colours in [0, 1], the only ones that arise when every albedo is in [0, 1], never wrap.
- Exceptions: a dielectric hit whose arithmetic is undefined makes `ray_color` return `None` and `render_image` report `failed`. The cases are a zero ray direction (the unit-length assertion of `refract`), `ref_idx = 0` on an entering ray (`1.0 / ref_idx`), and `1 + ref_idx = 0` in `schlick`. The engine raises or produces non-numbers there. A ray that hits anything has a non-zero direction, so only the last two can happen. `RayColor`, `SampleColour`, `PixelColour` and `RenderImage` state that a colour exists, and the render does not fail, for a scene where no dielectric has `ref_idx` equal to 0 or −1.
- The Python 2 `__metaclass__`/`ABCMeta` machinery: `Material` and `Surface` are closed datatypes, and `obj.hit(...)` dispatches by pattern matching.
- Object identity: a hit record holds its material, and an assembly its members, as values. Aliasing is not modelled: the same assembly object added twice, added to itself, or changed after being added to another.
- `rec.point.copy()` in `scatter` is the identity on values.
- `Metal.__init__` clamps `fuzz` from above only, as the code does. A negative fuzz is kept.
- The repository's scene scripts (with their image file output) and its unit tests are not part of this model.
- Performance and parallelism of the pixel loop.

## Findings

| source | as written | input that shows it | evidently intended | confidence | as-written member | corrected member |
|---|---|---|---|---|---|---|
| engine/surface.py:65-66 | `t1 = -(b + np.sign(b)*np.sqrt(discriminant)) / a` with `np.sign(0) = 0`, so for b = 0 t1 is 0 and `t2 = c / (a*t1)` is an infinity (+inf, since c < 0 there) | a sphere of radius 1 and a ray whose origin is the sphere's centre with a unit direction, queried on [0.001, 1e6) as `ray_color` does: b = 0, and the only finite candidate 0 lies below t_min, so the ray is reported as a miss | the ray is hit where it leaves the sphere, at t = radius (sign(0) taken as +1, so that t1 = −s/a and t2 = s/a) | not executed | Surfaces.AsWrittenMissesCentredRay | Surfaces.CorrectedHitsCentredRay |
