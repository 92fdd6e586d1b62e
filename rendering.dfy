/** The integrator and the render loop of engine/rendering.py.

    `ray_color` follows a ray through at most `depth` scatter events and ends
    in black, in the sky gradient, or in the product of the attenuations with
    the sky colour. The random draws every scatter event consumes are read
    from a supplied stream `draws`, the k-th event taking `draws(k)`; the
    outcome `None` stands for the exception the engine raises when a
    dielectric's arithmetic is undefined (a zero direction, a zero index
    ratio, or 1 + ratio = 0).

    `render_image` fills an nx by ny buffer whose second axis is flipped,
    averaging `ns` samples per pixel and storing the gamma-corrected value in
    an 8-bit channel. */
module Rendering {
  import opened Vectors
  import opened Options
  import opened Rays
  import opened HitRecords
  import opened Utils
  import opened Materials
  import opened Surfaces
  import opened Cameras

  predicate NonNegative(v: Vec3) {
    0.0 <= v.x && 0.0 <= v.y && 0.0 <= v.z
  }

  /** The materials of a scene, in the order its spheres were added. */
  function MaterialsOf(s: Surface): seq<Material>
    decreases s
  {
    match s
    case Sphere(_, _, material) => [material]
    case Assembly(objects) => MaterialsOfAll(objects)
  }

  function MaterialsOfAll(objects: seq<Surface>): seq<Material>
    decreases objects
  {
    if |objects| == 0 then []
    else MaterialsOfAll(objects[..|objects| - 1]) + MaterialsOf(objects[|objects| - 1])
  }

  /** No albedo of the scene has a negative channel. */
  predicate NonNegativeAlbedos(scene: Surface) {
    forall m :: m in MaterialsOf(scene) && !m.Dielectric? ==> NonNegative(m.albedo)
  }

  /** Every albedo of the scene has its channels in [0, 1]: the surfaces only
      absorb light. */
  predicate AttenuatingAlbedos(scene: Surface) {
    forall m :: m in MaterialsOf(scene) && !m.Dielectric? ==> InBox(m.albedo, 0.0, 1.0)
  }

  /** Every dielectric of the scene has an index ratio whose arithmetic is
      defined: `1.0 / ref_idx` and the `1 + ref_idx` of `schlick` are not
      divisions by zero. */
  predicate DielectricsDefined(scene: Surface) {
    forall m :: m in MaterialsOf(scene) && m.Dielectric? ==> m.refIdx != 0.0 && 1.0 + m.refIdx != 0.0
  }

  /** A hit record reports a material of the scene. */
  lemma {:induction false} RecordMaterialIn(s: Surface, ray: Ray, t: real)
    ensures RecordAt(s, ray, t).Some? ==> RecordAt(s, ray, t).value.material in MaterialsOf(s)
    decreases s
  {
    match s
    case Sphere(_, _, _) =>
    case Assembly(objects) => RecordMaterialInAll(objects, ray, t);
  }

  lemma {:induction false} RecordMaterialInAll(objects: seq<Surface>, ray: Ray, t: real)
    ensures RecordAtAny(objects, ray, t).Some? ==> RecordAtAny(objects, ray, t).value.material in MaterialsOfAll(objects)
    decreases objects
  {
    if |objects| > 0 {
      RecordMaterialInAll(objects[..|objects| - 1], ray, t);
      RecordMaterialIn(objects[|objects| - 1], ray, t);
    }
  }

  /** The colour of the sky straight up. */
  const SkyBlue: Vec3 := Vec3(0.5, 0.7, 1.0)

  /** The sky: with t = (y + 1) / 2 for the unit direction's y, white blended
      towards (0.5, 0.7, 1.0). Every channel lies in [0.5, 1], and the blue
      channel is always 1. */
  function Sky(sqrt: real -> real, d: Vec3): (c: Vec3)
    requires IsSqrt(sqrt)
    ensures InBox(c, 0.5, 1.0) && c.z == 1.0
  {
    var unit := UnitVector(sqrt, d);
    SkyBlend(0.5 * (unit.y + 1.0))
  }

  /** White blended towards `SkyBlue` by t, channel by channel (see
      `SkyBlendIsLerp` for the vector form). */
  function SkyBlend(t: real): (c: Vec3)
    requires 0.0 <= t <= 1.0
    ensures InBox(c, 0.5, 1.0) && c.z == 1.0
  {
    Vec3((1.0 - t) + t * 0.5, (1.0 - t) + t * 0.7, (1.0 - t) + t * 1.0)
  }

  /** The blend is `(1 - t) (1, 1, 1) + t (0.5, 0.7, 1.0)`, the linear
      interpolation from white at t = 0 to `SkyBlue` at t = 1. */
  lemma SkyBlendIsLerp(t: real)
    requires 0.0 <= t <= 1.0
    ensures SkyBlend(t) == Add(Scale(1.0 - t, Ones), Scale(t, SkyBlue))
    ensures SkyBlend(0.0) == Ones && SkyBlend(1.0) == SkyBlue
  {
  }

  /** Straight up the sky is (0.5, 0.7, 1.0) ... */
  lemma SkyStraightUp(sqrt: real -> real, d: Vec3)
    requires IsSqrt(sqrt) && IsUnit(d) && d.y == 1.0
    ensures Sky(sqrt, d) == SkyBlue
  {
    UnitOfUnit(sqrt, d);
  }

  /** ... and straight down it is white. */
  lemma SkyStraightDown(sqrt: real -> real, d: Vec3)
    requires IsSqrt(sqrt) && IsUnit(d) && d.y == -1.0
    ensures Sky(sqrt, d) == Ones
  {
    UnitOfUnit(sqrt, d);
  }

  /** Normalising a unit vector leaves it as it is. */
  lemma UnitOfUnit(sqrt: real -> real, v: Vec3)
    requires IsSqrt(sqrt) && IsUnit(v)
    ensures UnitVector(sqrt, v) == v
  {
    SqrtUnique(sqrt, Dot(v, v), 1.0);
    assert Norm(sqrt, v) == 1.0;
  }

  /** Channel-wise products of non-negative colours are non-negative, and of
      colours in [0, 1] stay in [0, 1]. */
  lemma MulBounds(a: Vec3, b: Vec3)
    ensures NonNegative(a) && NonNegative(b) ==> NonNegative(Mul(a, b))
    ensures InBox(a, 0.0, 1.0) && InBox(b, 0.0, 1.0) ==> InBox(Mul(a, b), 0.0, 1.0)
  {
    assert Mul(a, b) == Vec3(Mult(a.x, b.x), Mult(a.y, b.y), Mult(a.z, b.z));
    if NonNegative(a) && NonNegative(b) {
      MulNonneg(a.x, b.x);
      MulNonneg(a.y, b.y);
      MulNonneg(a.z, b.z);
    }
    if InBox(a, 0.0, 1.0) && InBox(b, 0.0, 1.0) {
      MulMonotone(a.x, 1.0, b.x, 1.0);
      MulMonotone(a.y, 1.0, b.y, 1.0);
      MulMonotone(a.z, 1.0, b.z, 1.0);
    }
  }

  /** The range [NearT, FarT) of ray parameters `ray_color` queries: hits
      closer than NearT are dropped so that a scattered ray does not hit the
      surface it leaves. */
  const NearT: real := 0.001
  const FarT: real := 1000000.0

  /** `ray_color`: the scene is queried on [0.001, 1e6). A miss gives the
      sky; a hit scatters, and when depth is left and the material does not
      absorb the ray, the colour is the attenuation times the colour of the
      scattered ray, followed with one less depth and the next draw; otherwise
      black. A colour exists whenever every dielectric of the scene has a
      defined index ratio (a ray that hits anything has a non-zero direction);
      it is never negative when no albedo is, and lies in [0, 1] when every
      albedo does. */
  function RayColor(sqrt: real -> real, ray: Ray, scene: Surface, depth: int, draws: nat -> ScatterDraw, k: nat): (c: Option<Vec3>)
    requires IsSqrt(sqrt)
    ensures DielectricsDefined(scene) ==> c.Some?
    ensures c.Some? && NonNegativeAlbedos(scene) ==> NonNegative(c.value)
    ensures c.Some? && AttenuatingAlbedos(scene) ==> InBox(c.value, 0.0, 1.0)
    decreases if depth < 0 then 0 else depth
  {
    var hit := SurfaceHit(sqrt, scene, ray, NearT, FarT);
    if hit.rec.None? then
      Some(Sky(sqrt, ray.direction))
    else
      var rec := hit.rec.value;
      RecordMaterialIn(scene, ray, hit.t);
      QualifiesMovingRay(scene, ray, hit.t);
      if rec.material.Dielectric? && !DielectricDefined(sqrt, rec.material.refIdx, ray, rec.normal) then
        None
      else
        var s := Scatter(sqrt, rec.material, ray, rec, draws(k));
        if depth > 0 && s.scattered.Some? then
          var rest := RayColor(sqrt, s.scattered.value, scene, depth - 1, draws, k + 1);
          if rest.None? then
            None
          else
            MulBounds(s.attenuation, rest.value);
            Some(Mul(s.attenuation, rest.value))
        else
          Some(Zero)
  }

  /** A ray that hits the scene is black when no depth is left or the material
      absorbs it (and the material's arithmetic is defined). */
  lemma RayColorBlack(sqrt: real -> real, ray: Ray, scene: Surface, depth: int, draws: nat -> ScatterDraw, k: nat)
    requires IsSqrt(sqrt)
    requires var hit := SurfaceHit(sqrt, scene, ray, NearT, FarT);
      hit.rec.Some? &&
      (hit.rec.value.material.Dielectric? ==>
         DielectricDefined(sqrt, hit.rec.value.material.refIdx, ray, hit.rec.value.normal)) &&
      (depth <= 0 || Scatter(sqrt, hit.rec.value.material, ray, hit.rec.value, draws(k)).scattered.None?)
    ensures RayColor(sqrt, ray, scene, depth, draws, k) == Some(Zero)
  {
  }

  /** A ray that hits the scene and scatters on, with depth left, has the
      attenuation times the colour of the scattered ray, traced with one less
      depth and the next draw; it fails only when that colour fails. */
  lemma RayColorScatters(sqrt: real -> real, ray: Ray, scene: Surface, depth: int, draws: nat -> ScatterDraw, k: nat)
    requires IsSqrt(sqrt) && depth > 0
    requires var hit := SurfaceHit(sqrt, scene, ray, NearT, FarT);
      hit.rec.Some? &&
      var rec := hit.rec.value;
      (rec.material.Dielectric? ==> DielectricDefined(sqrt, rec.material.refIdx, ray, rec.normal)) &&
      Scatter(sqrt, rec.material, ray, rec, draws(k)).scattered.Some?
    ensures var rec := SurfaceHit(sqrt, scene, ray, NearT, FarT).rec.value;
      var s := Scatter(sqrt, rec.material, ray, rec, draws(k));
      var rest := RayColor(sqrt, s.scattered.value, scene, depth - 1, draws, k + 1);
      RayColor(sqrt, ray, scene, depth, draws, k) == if rest.None? then None else Some(Mul(s.attenuation, rest.value))
  {
  }

  /** A ray that misses the scene has the sky's colour. */
  lemma RayColorMiss(sqrt: real -> real, ray: Ray, scene: Surface, depth: int, draws: nat -> ScatterDraw, k: nat)
    requires IsSqrt(sqrt)
    requires SurfaceHit(sqrt, scene, ray, NearT, FarT).rec.None?
    ensures RayColor(sqrt, ray, scene, depth, draws, k) == Some(Sky(sqrt, ray.direction))
    ensures forall t :: NearT <= t < FarT ==> !Qualifies(scene, ray, t)
  {
  }

  /** The recursion is bounded by depth: a ray scatters at most depth + 1
      times, so its colour depends only on the draws k .. k + depth. */
  lemma {:induction false} RayColorUsesDraws(sqrt: real -> real, ray: Ray, scene: Surface, depth: int,
                                             d1: nat -> ScatterDraw, d2: nat -> ScatterDraw, k: nat)
    requires IsSqrt(sqrt)
    requires forall n: nat :: k <= n <= k + (if depth < 0 then 0 else depth) ==> d1(n) == d2(n)
    ensures RayColor(sqrt, ray, scene, depth, d1, k) == RayColor(sqrt, ray, scene, depth, d2, k)
    decreases if depth < 0 then 0 else depth
  {
    assert d1(k) == d2(k);
    var hit := SurfaceHit(sqrt, scene, ray, NearT, FarT);
    if hit.rec.Some? && depth > 0 {
      var rec := hit.rec.value;
      if !(rec.material.Dielectric? && !DielectricDefined(sqrt, rec.material.refIdx, ray, rec.normal)) {
        var s := Scatter(sqrt, rec.material, ray, rec, d1(k));
        if s.scattered.Some? {
          RayColorUsesDraws(sqrt, s.scattered.value, scene, depth - 1, d1, d2, k + 1);
          RayColorBounce(sqrt, ray, scene, depth, d1, d2, k);
          return;
        }
      }
    }
    RayColorNoBounce(sqrt, ray, scene, depth, d1, d2, k);
  }

  /** One level of `RayColorUsesDraws` when the ray scatters on: equal draws
      at k and equal colours further on give equal colours. */
  lemma RayColorBounce(sqrt: real -> real, ray: Ray, scene: Surface, depth: int,
                       d1: nat -> ScatterDraw, d2: nat -> ScatterDraw, k: nat)
    requires IsSqrt(sqrt) && d1(k) == d2(k) && depth > 0
    requires var hit := SurfaceHit(sqrt, scene, ray, NearT, FarT);
      hit.rec.Some? &&
      var rec := hit.rec.value;
      !(rec.material.Dielectric? && !DielectricDefined(sqrt, rec.material.refIdx, ray, rec.normal)) &&
      var s := Scatter(sqrt, rec.material, ray, rec, d1(k));
      s.scattered.Some? &&
      RayColor(sqrt, s.scattered.value, scene, depth - 1, d1, k + 1)
        == RayColor(sqrt, s.scattered.value, scene, depth - 1, d2, k + 1)
    ensures RayColor(sqrt, ray, scene, depth, d1, k) == RayColor(sqrt, ray, scene, depth, d2, k)
  {
  }

  /** ... and when it does not, the draw at k alone decides. */
  lemma RayColorNoBounce(sqrt: real -> real, ray: Ray, scene: Surface, depth: int,
                         d1: nat -> ScatterDraw, d2: nat -> ScatterDraw, k: nat)
    requires IsSqrt(sqrt) && d1(k) == d2(k)
    requires var hit := SurfaceHit(sqrt, scene, ray, NearT, FarT);
      hit.rec.None? || depth <= 0 ||
      var rec := hit.rec.value;
      (rec.material.Dielectric? && !DielectricDefined(sqrt, rec.material.refIdx, ray, rec.normal)) ||
      Scatter(sqrt, rec.material, ray, rec, d1(k)).scattered.None?
    ensures RayColor(sqrt, ray, scene, depth, d1, k) == RayColor(sqrt, ray, scene, depth, d2, k)
  {
  }

  /** A quotient of a non-negative real by a larger one lies in [0, 1). */
  lemma QuotientBelowOne(a: real, b: real)
    requires 0.0 <= a < b
    ensures 0.0 <= a / b < 1.0
  {
    var q := a / b;
    assert Mult(q, b) == a;
    if q < 0.0 {
      MulPos(-q, b);
    } else if q >= 1.0 {
      MulMonotone(1.0, q, b, b);
    }
  }

  /** The sample coordinate `(i + r) / n` of pixel i of n, jittered by a
      draw r in [0, 1), lies in [0, 1). */
  function SampleCoordinate(i: nat, r: Rand, n: nat): (u: real)
    requires i < n
    ensures 0.0 <= u < 1.0
  {
    QuotientBelowOne(i as real + r, n as real);
    (i as real + r) / n as real
  }

  /** `np.round`: the nearest integer, ties going to the even one. */
  function RoundHalfEven(y: real): (r: int)
    ensures -0.5 <= r as real - y <= 0.5
    ensures (r as real - y == 0.5 || r as real - y == -0.5) ==> r % 2 == 0
  {
    var f := y.Floor;
    if y - f as real < 0.5 then f
    else if y - f as real > 0.5 then f + 1
    else if f % 2 == 0 then f
    else f + 1
  }

  /** One stored channel: `round(255 sqrt(x))` written into an unsigned 8-bit
      cell, which keeps it modulo 256. For x in [0, 1] nothing wraps: the cell
      holds the rounded value itself. */
  function Channel(sqrt: real -> real, x: real): (b: int)
    requires IsSqrt(sqrt) && 0.0 <= x
    ensures 0 <= b < 256
    ensures x <= 1.0 ==> b == RoundHalfEven(255.0 * sqrt(x))
  {
    GammaInRange(sqrt, x);
    RoundHalfEven(255.0 * sqrt(x)) % 256
  }

  lemma GammaInRange(sqrt: real -> real, x: real)
    requires IsSqrt(sqrt) && 0.0 <= x
    ensures x <= 1.0 ==> 0 <= RoundHalfEven(255.0 * sqrt(x)) <= 255
  {
    SqrtOf(sqrt, x);
    SqBelowOne(sqrt(x));
  }

  /** A pixel of the image: three 8-bit channels. */
  datatype Pixel = Pixel(r: int, g: int, b: int)

  predicate IsPixel(p: Pixel) {
    0 <= p.r < 256 && 0 <= p.g < 256 && 0 <= p.b < 256
  }

  /** Gamma correction and quantisation of an averaged colour. */
  function Quantize(sqrt: real -> real, col: Vec3): (p: Pixel)
    requires IsSqrt(sqrt) && NonNegative(col)
    ensures IsPixel(p)
    ensures InBox(col, 0.0, 1.0) ==>
      p == Pixel(RoundHalfEven(255.0 * sqrt(col.x)), RoundHalfEven(255.0 * sqrt(col.y)), RoundHalfEven(255.0 * sqrt(col.z)))
  {
    Pixel(Channel(sqrt, col.x), Channel(sqrt, col.y), Channel(sqrt, col.z))
  }

  /** How often `render_image` lets a ray scatter. */
  const MaxDepth: int := 50

  /** The random inputs of a render. For sample s of pixel (i, j): the two
      values of `np.random.rand()` that jitter it, the lens point that
      `random_in_unit_disk` returns for its ray, and the stream of draws its
      scatter events consume. */
  datatype Draws = Draws(
    jitter: (nat, nat, nat) -> (Rand, Rand),
    lens: (nat, nat, nat) -> Vec2,
    bounces: (nat, nat, nat) -> nat -> ScatterDraw)

  /** The colour of sample s of pixel (i, j): the camera's ray through the
      jittered coordinates, traced with depth `MaxDepth`. */
  function SampleColour(sqrt: real -> real, nx: nat, ny: nat, scene: Surface, camera: Camera, draws: Draws,
                        i: nat, j: nat, s: nat): (c: Option<Vec3>)
    requires IsSqrt(sqrt) && i < nx && j < ny
    ensures DielectricsDefined(scene) ==> c.Some?
    ensures c.Some? && NonNegativeAlbedos(scene) ==> NonNegative(c.value)
    ensures c.Some? && AttenuatingAlbedos(scene) ==> InBox(c.value, 0.0, 1.0)
  {
    var jitter := draws.jitter(i, j, s);
    var u := SampleCoordinate(i, jitter.0, nx);
    var v := SampleCoordinate(j, jitter.1, ny);
    RayColor(sqrt, GetRay(camera, u, v, draws.lens(i, j, s)), scene, MaxDepth, draws.bounces(i, j, s), 0)
  }

  /** The colours of the first n samples of pixel (i, j), in order. */
  function Samples(sqrt: real -> real, nx: nat, ny: nat, scene: Surface, camera: Camera, draws: Draws,
                   i: nat, j: nat, n: nat): (cs: seq<Option<Vec3>>)
    requires IsSqrt(sqrt) && i < nx && j < ny
    ensures |cs| == n
    ensures forall s :: 0 <= s < n ==> cs[s] == SampleColour(sqrt, nx, ny, scene, camera, draws, i, j, s)
  {
    seq(n, s requires 0 <= s < n => SampleColour(sqrt, nx, ny, scene, camera, draws, i, j, s))
  }

  /** The running sum `col += ray_color(...)` over a sequence of sample
      colours, or `None` once one of them has failed. */
  function Total(cs: seq<Option<Vec3>>): Option<Vec3> {
    if |cs| == 0 then
      Some(Zero)
    else
      var sum := Total(cs[..|cs| - 1]);
      var last := cs[|cs| - 1];
      if sum.None? || last.None? then None else Some(Add(sum.value, last.value))
  }

  /** Sample colours that are all non-negative sum to a non-negative colour;
      n colours in [0, 1] sum to one in [0, n]. */
  lemma {:induction false} TotalBounds(cs: seq<Option<Vec3>>)
    ensures Total(cs).Some? && (forall s :: 0 <= s < |cs| && cs[s].Some? ==> NonNegative(cs[s].value))
            ==> NonNegative(Total(cs).value)
    ensures Total(cs).Some? && (forall s :: 0 <= s < |cs| && cs[s].Some? ==> InBox(cs[s].value, 0.0, 1.0))
            ==> InBox(Total(cs).value, 0.0, |cs| as real)
  {
    if |cs| > 0 {
      var init := cs[..|cs| - 1];
      TotalBounds(init);
      assert forall s :: 0 <= s < |init| ==> init[s] == cs[s];
    }
  }

  /** The total fails exactly when one of the samples fails. */
  lemma {:induction false} TotalFails(cs: seq<Option<Vec3>>)
    ensures Total(cs).None? <==> exists s :: 0 <= s < |cs| && cs[s].None?
  {
    if |cs| > 0 {
      var init := cs[..|cs| - 1];
      TotalFails(init);
      if Total(init).None? {
        var s :| 0 <= s < |init| && init[s].None?;
        assert cs[s].None?;
      } else if cs[|cs| - 1].Some? {
        forall s | 0 <= s < |cs|
          ensures cs[s].Some?
        {
          if s < |cs| - 1 {
            assert cs[s] == init[s];
          }
        }
      }
    }
  }

  /** Once a prefix of the samples fails, the whole total fails. */
  lemma TotalNone(cs: seq<Option<Vec3>>, s: nat)
    requires s <= |cs| && Total(cs[..s]).None?
    ensures Total(cs).None?
  {
    TotalFails(cs[..s]);
    TotalFails(cs);
    var k :| 0 <= k < s && cs[..s][k].None?;
    assert cs[k].None?;
  }

  /** Adding one more sample extends the running sum by that sample. */
  lemma TotalStep(cs: seq<Option<Vec3>>, s: nat, col: Vec3)
    requires s < |cs| && Total(cs[..s]) == Some(col)
    ensures Total(cs[..s + 1]) == if cs[s].None? then None else Some(Add(col, cs[s].value))
  {
    assert cs[..s + 1][..s] == cs[..s];
  }

  /** Dividing a colour whose channels lie in [0, n] by n > 0 gives one in [0, 1]. */
  lemma AverageBounds(col: Vec3, n: real)
    requires 0.0 < n
    ensures NonNegative(col) ==> NonNegative(Div(col, n))
    ensures InBox(col, 0.0, n) ==> InBox(Div(col, n), 0.0, 1.0)
  {
    DivIsScale(col, n);
    var k := 1.0 / n;
    assert Mult(k, n) == 1.0;
    assert 0.0 < k by {
      if k <= 0.0 {
        MulNonneg(-k, n);
      }
    }
    assert Div(col, n) == Vec3(Mult(k, col.x), Mult(k, col.y), Mult(k, col.z));
    if NonNegative(col) {
      MulNonneg(k, col.x);
      MulNonneg(k, col.y);
      MulNonneg(k, col.z);
    }
    if InBox(col, 0.0, n) {
      MulMonotone(k, k, col.x, n);
      MulMonotone(k, k, col.y, n);
      MulMonotone(k, k, col.z, n);
    }
  }

  /** The averaged colour `col / ns` of pixel (i, j), or `None` when one of its
      samples fails. */
  function PixelColour(sqrt: real -> real, nx: nat, ny: nat, ns: nat, scene: Surface, camera: Camera, draws: Draws,
                       i: nat, j: nat): (c: Option<Vec3>)
    requires IsSqrt(sqrt) && i < nx && j < ny && 0 < ns
    ensures DielectricsDefined(scene) ==> c.Some?
    ensures c.Some? && NonNegativeAlbedos(scene) ==> NonNegative(c.value)
    ensures c.Some? && AttenuatingAlbedos(scene) ==> InBox(c.value, 0.0, 1.0)
  {
    var cs := Samples(sqrt, nx, ny, scene, camera, draws, i, j, ns);
    var sum := Total(cs);
    TotalBounds(cs);
    TotalFails(cs);
    if sum.None? then
      None
    else
      AverageBounds(sum.value, ns as real);
      Some(Div(sum.value, ns as real))
  }

  /** A pixel fails exactly when one of its samples fails. */
  lemma PixelFails(sqrt: real -> real, nx: nat, ny: nat, ns: nat, scene: Surface, camera: Camera, draws: Draws,
                   i: nat, j: nat)
    requires IsSqrt(sqrt) && i < nx && j < ny && 0 < ns
    ensures PixelColour(sqrt, nx, ny, ns, scene, camera, draws, i, j).None?
        <==> exists s :: 0 <= s < ns && SampleColour(sqrt, nx, ny, scene, camera, draws, i, j, s).None?
  {
    TotalFails(Samples(sqrt, nx, ny, scene, camera, draws, i, j, ns));
  }

  /** The value stored for pixel (i, j). */
  function PixelAt(sqrt: real -> real, nx: nat, ny: nat, ns: nat, scene: Surface, camera: Camera, draws: Draws,
                   i: nat, j: nat): (p: Option<Pixel>)
    requires IsSqrt(sqrt) && i < nx && j < ny && 0 < ns && NonNegativeAlbedos(scene)
  {
    var c := PixelColour(sqrt, nx, ny, ns, scene, camera, draws, i, j);
    if c.None? then None else Some(Quantize(sqrt, c.value))
  }

  /** The body of `render_image`'s two outer loops for pixel (i, j): the sum
      of its ns sample colours divided by ns, or `None` when a sample fails
      (the engine raises). */
  method SamplePixel(sqrt: real -> real, nx: nat, ny: nat, ns: nat, scene: Surface, camera: Camera, draws: Draws,
                     i: nat, j: nat)
    returns (col: Option<Vec3>)
    requires IsSqrt(sqrt) && i < nx && j < ny && 0 < ns
    ensures col == PixelColour(sqrt, nx, ny, ns, scene, camera, draws, i, j)
  {
    ghost var cs := Samples(sqrt, nx, ny, scene, camera, draws, i, j, ns);
    var sum := Zero;
    for s := 0 to ns
      invariant Total(cs[..s]) == Some(sum)
    {
      var jitter := draws.jitter(i, j, s);
      var u := SampleCoordinate(i, jitter.0, nx);
      var v := SampleCoordinate(j, jitter.1, ny);
      var ray := GetRay(camera, u, v, draws.lens(i, j, s));
      var c := RayColor(sqrt, ray, scene, MaxDepth, draws.bounces(i, j, s), 0);
      assert c == cs[s];
      TotalStep(cs, s, sum);
      if c.None? {
        TotalNone(cs, s + 1);
        return None;
      }
      sum := Add(sum, c.value);
    }
    assert cs[..ns] == cs;
    col := Some(Div(sum, ns as real));
  }

  /** e holds the expected image: e[i][j] is pixel (i, j). The property is
      triggered only by `PixelAt` terms, so reasoning about the array below
      sees the pixels without re-deriving them. */
  ghost predicate IsExpected(e: seq<seq<Option<Pixel>>>, sqrt: real -> real, nx: nat, ny: nat, ns: nat,
                             scene: Surface, camera: Camera, draws: Draws)
    requires IsSqrt(sqrt) && 0 < ns && NonNegativeAlbedos(scene)
  {
    && |e| == nx
    && (forall i :: 0 <= i < nx ==> |e[i]| == ny)
    && forall i: nat, j: nat {:trigger PixelAt(sqrt, nx, ny, ns, scene, camera, draws, i, j)} ::
         i < nx && j < ny ==> e[i][j] == PixelAt(sqrt, nx, ny, ns, scene, camera, draws, i, j)
  }

  ghost method ExpectedImage(sqrt: real -> real, nx: nat, ny: nat, ns: nat, scene: Surface, camera: Camera,
                             draws: Draws)
    returns (e: seq<seq<Option<Pixel>>>)
    requires IsSqrt(sqrt) && 0 < ns && NonNegativeAlbedos(scene)
    ensures IsExpected(e, sqrt, nx, ny, ns, scene, camera, draws)
  {
    e := seq(nx, i requires 0 <= i < nx =>
      seq(ny, j requires 0 <= j < ny => PixelAt(sqrt, nx, ny, ns, scene, camera, draws, i, j)));
  }

  /** One pass of `render_image`'s inner loop body: pixel (i, j), or `None`
      when one of its samples fails. */
  method RenderPixel(sqrt: real -> real, nx: nat, ny: nat, ns: nat, scene: Surface, camera: Camera, draws: Draws,
                     i: nat, j: nat, ghost expected: seq<seq<Option<Pixel>>>)
    returns (p: Option<Pixel>)
    requires IsSqrt(sqrt) && i < nx && j < ny && 0 < ns && NonNegativeAlbedos(scene)
    requires IsExpected(expected, sqrt, nx, ny, ns, scene, camera, draws)
    ensures p == expected[i][j]
  {
    assert expected[i][j] == PixelAt(sqrt, nx, ny, ns, scene, camera, draws, i, j);
    var col := SamplePixel(sqrt, nx, ny, ns, scene, camera, draws, i, j);
    if col.None? {
      return None;
    }
    p := Some(Quantize(sqrt, col.value));
  }

  /** `render_image`: every pixel (i, j) is written once, into cell
      (i, ny - 1 - j); the render fails (the engine raises) exactly when some
      sample of some pixel fails, which no scene whose dielectrics are all
      defined does, and otherwise every cell holds its pixel. */
  method RenderImage(sqrt: real -> real, nx: nat, ny: nat, ns: nat, scene: Surface, camera: Camera, draws: Draws)
    returns (im: array2<Pixel>, failed: bool)
    requires IsSqrt(sqrt) && 0 < ns && NonNegativeAlbedos(scene)
    ensures fresh(im) && im.Length0 == nx && im.Length1 == ny
    ensures failed <==> exists i: nat, j: nat :: i < nx && j < ny && PixelAt(sqrt, nx, ny, ns, scene, camera, draws, i, j).None?
    ensures DielectricsDefined(scene) ==> !failed
    ensures !failed ==> forall i: nat, j: nat :: i < nx && j < ny ==>
      PixelAt(sqrt, nx, ny, ns, scene, camera, draws, i, j) == Some(im[i, ny - 1 - j])
  {
    ghost var expected := ExpectedImage(sqrt, nx, ny, ns, scene, camera, draws);
    im := new Pixel[nx, ny]((_, _) => Pixel(0, 0, 0));
    failed := false;
    for i := 0 to nx
      invariant forall i', j' :: 0 <= i' < i && 0 <= j' < ny ==> expected[i'][j'] == Some(im[i', ny - 1 - j'])
    {
      for j := 0 to ny
        invariant forall i', j' :: 0 <= i' < i && 0 <= j' < ny ==> expected[i'][j'] == Some(im[i', ny - 1 - j'])
        invariant forall j' :: 0 <= j' < j ==> expected[i][j'] == Some(im[i, ny - 1 - j'])
      {
        var p := RenderPixel(sqrt, nx, ny, ns, scene, camera, draws, i, j, expected);
        if p.None? {
          failed := true;
          assert PixelAt(sqrt, nx, ny, ns, scene, camera, draws, i, j).None?;
          return;
        }
        im[i, ny - 1 - j] := p.value;
      }
    }
  }
}
