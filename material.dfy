/** The materials of engine/material.py and the free functions `reflect`,
    `refract` and `schlick`. Scattering is a pure function of the incoming ray,
    the hit record and the random draws, which are passed in. */
module Materials {
  import opened Vectors
  import opened Options
  import opened Rays
  import opened HitRecords
  import opened Utils

  /** The three surface materials. Lambertian and metal surfaces attenuate by
      their albedo per colour channel; a dielectric is given by the ratio of
      the indices of refraction. */
  datatype Material =
    | Lambertian(albedo: Vec3)
    | Metal(albedo: Vec3, fuzz: real)
    | Dielectric(refIdx: real)

  /** The random inputs one scatter event consumes: the sample that
      `random_in_unit_sphere` returns (Lambertian and metal surfaces), and the
      value of `np.random.rand()` (dielectrics). */
  datatype ScatterDraw = ScatterDraw(ball: Vec3, coin: Rand)

  /** What `scatter` returns: the scattered ray, or `None` when the surface
      absorbs the ray, and the attenuation per colour channel. */
  datatype ScatterResult = ScatterResult(scattered: Option<Ray>, attenuation: Vec3)

  /** The metal constructor clamps the fuzz factor from above at 1 and leaves
      smaller values, negative ones included, as they are. */
  function MakeMetal(albedo: Vec3, f: real): (m: Material)
    ensures m.Metal? && m.albedo == albedo
    ensures m.fuzz <= 1.0 && m.fuzz <= f
    ensures m.fuzz == f || m.fuzz == 1.0
  {
    Metal(albedo, if f < 1.0 then f else 1.0)
  }

  /** Mirror reflection of `v` at the plane with unit normal `n`. */
  function Reflect(v: Vec3, n: Vec3): (r: Vec3)
    requires IsUnit(n)
    ensures Dot(r, n) == -Dot(v, n)
    ensures Dot(r, r) == Dot(v, v)
    ensures Add(r, Scale(Dot(v, n), n)) == Sub(v, Scale(Dot(v, n), n))
  {
    var d := Dot(v, n);
    NormAfterStep(v, n, 2.0 * d);
    ReflectStep(v, n, d);
    Sub(v, Scale(2.0 * d, n))
  }

  /** The arithmetic behind `Reflect`: stepping back 2d along n undoes the
      projection d n, and 2 (2d) d = (2d)^2. */
  lemma ReflectStep(v: Vec3, n: Vec3, d: real)
    ensures Add(Sub(v, Scale(2.0 * d, n)), Scale(d, n)) == Sub(v, Scale(d, n))
    ensures 2.0 * Mult(2.0 * d, d) == Sq(2.0 * d)
  {
  }

  /** |a - k n|^2 = |a|^2 - 2k (a.n) + k^2 for a unit n. */
  lemma NormAfterStep(a: Vec3, n: Vec3, k: real)
    requires IsUnit(n)
    ensures Dot(Sub(a, Scale(k, n)), Sub(a, Scale(k, n))) == Dot(a, a) - 2.0 * Mult(k, Dot(a, n)) + Sq(k)
    ensures Dot(Sub(a, Scale(k, n)), n) == Dot(a, n) - k
  {
    DotSubExpand(a, Scale(k, n));
    DotScaleRight(a, k, n);
    DotScale(k, n);
    DotScaleRight(n, k, n);
    assert Dot(Sub(a, Scale(k, n)), n) == Dot(a, n) - Dot(Scale(k, n), n);
  }

  /** Reflecting twice at the same plane gives the vector back. */
  lemma ReflectInvolution(v: Vec3, n: Vec3)
    requires IsUnit(n)
    ensures Reflect(Reflect(v, n), n) == v
  {
  }

  /** The discriminant of Snell's law for a ray at cosine `dt` to the normal
      and relative index `k`: positive exactly when a refracted ray exists. */
  function RefractDiscriminant(dt: real, k: real): real {
    1.0 - Sq(k) * (1.0 - Sq(dt))
  }

  /** Refraction of the unit direction `v` at the unit normal `n` with index
      ratio `k`; `None` on total internal reflection. When a ray exists it is
      of unit length, leaves on the far side of `n`, and its component along
      the surface is `k` times that of `v` (Snell's law). */
  function Refract(sqrt: real -> real, v: Vec3, n: Vec3, k: real): (r: Option<Vec3>)
    requires IsSqrt(sqrt) && IsUnit(v) && IsUnit(n)
    ensures r.None? <==> RefractDiscriminant(Dot(v, n), k) <= 0.0
    ensures r.Some? ==> IsUnit(r.value)
    ensures r.Some? ==> Dot(r.value, n) < 0.0
    ensures r.Some? ==> Sub(r.value, Scale(Dot(r.value, n), n)) == Scale(k, Sub(v, Scale(Dot(v, n), n)))
  {
    var dt := Dot(v, n);
    var disc := RefractDiscriminant(dt, k);
    if disc > 0.0 then
      SqrtOf(sqrt, disc);
      RefractedUnit(v, n, k, sqrt(disc));
      Some(Sub(Scale(k, Sub(v, Scale(dt, n))), Scale(sqrt(disc), n)))
    else
      None
  }

  lemma RefractedUnit(v: Vec3, n: Vec3, k: real, s: real)
    requires IsUnit(v) && IsUnit(n)
    requires 0.0 < s && Sq(s) == RefractDiscriminant(Dot(v, n), k)
    ensures IsUnit(Sub(Scale(k, Sub(v, Scale(Dot(v, n), n))), Scale(s, n)))
    ensures Dot(Sub(Scale(k, Sub(v, Scale(Dot(v, n), n))), Scale(s, n)), n) == -s
  {
    var dt := Dot(v, n);
    var t := Sub(v, Scale(dt, n));
    NormAfterStep(v, n, dt);
    assert Dot(t, n) == 0.0;
    assert Dot(t, t) == 1.0 - Sq(dt);
    var kt := Scale(k, t);
    DotScale(k, t);
    assert Dot(kt, n) == 0.0;
    NormAfterStep(kt, n, s);
  }

  /** `x ** n` for a natural exponent. */
  function Pow(x: real, n: nat): real {
    if n == 0 then 1.0 else x * Pow(x, n - 1)
  }

  lemma {:induction false} PowMonotone(x: real, y: real, n: nat)
    requires 0.0 <= x <= y
    ensures 0.0 <= Pow(x, n) <= Pow(y, n)
  {
    if n > 0 {
      PowMonotone(x, y, n - 1);
      MulMonotone(x, y, Pow(x, n - 1), Pow(y, n - 1));
    }
  }

  lemma {:induction false} PowOne(n: nat)
    ensures Pow(1.0, n) == 1.0
  {
    if n > 0 {
      PowOne(n - 1);
    }
  }

  /** Schlick's reflectance at normal incidence, ((1 - r) / (1 + r))^2. */
  function SchlickR0(refIdx: real): real
    requires 1.0 + refIdx != 0.0
  {
    Sq((1.0 - refIdx) / (1.0 + refIdx))
  }

  /** Schlick's approximation of the reflection probability: r0 at normal
      incidence, and for a non-negative index ratio a value in [r0, 1] that
      grows as the cosine falls from 1 to 0. */
  function Schlick(cosine: real, refIdx: real): (p: real)
    requires 1.0 + refIdx != 0.0
    ensures cosine == 1.0 ==> p == SchlickR0(refIdx)
    ensures 0.0 <= refIdx && 0.0 <= cosine <= 1.0 ==> SchlickR0(refIdx) <= p <= 1.0
  {
    var r0 := SchlickR0(refIdx);
    var p := r0 + (1.0 - r0) * Pow(1.0 - cosine, 5);
    assert Pow(0.0, 5) == 0.0;
    if 0.0 <= refIdx && 0.0 <= cosine <= 1.0 then
      SchlickR0Bounded(refIdx);
      PowMonotone(1.0 - cosine, 1.0, 5);
      PowOne(5);
      MulMonotone(1.0 - r0, 1.0 - r0, Pow(1.0 - cosine, 5), 1.0);
      MulNonneg(1.0 - r0, Pow(1.0 - cosine, 5));
      p
    else
      p
  }

  /** For a non-negative index ratio the normal-incidence reflectance is a probability. */
  lemma SchlickR0Bounded(refIdx: real)
    requires 0.0 <= refIdx
    ensures 0.0 <= SchlickR0(refIdx) <= 1.0
  {
    var q := (1.0 - refIdx) / (1.0 + refIdx);
    assert q * (1.0 + refIdx) == 1.0 - refIdx;
    assert -1.0 <= q <= 1.0;
    SqPositive(q);
    SqBelowOne(q);
  }

  /** Schlick's reflectance does not decrease as the cosine falls from 1 to 0. */
  lemma SchlickMonotone(c1: real, c2: real, refIdx: real)
    requires 0.0 <= refIdx && 0.0 <= c1 <= c2 <= 1.0
    ensures Schlick(c2, refIdx) <= Schlick(c1, refIdx)
  {
    var r0 := SchlickR0(refIdx);
    SchlickR0Bounded(refIdx);
    PowMonotone(1.0 - c2, 1.0 - c1, 5);
    MulMonotone(1.0 - r0, 1.0 - r0, Pow(1.0 - c2, 5), Pow(1.0 - c1, 5));
  }

  /** The direction a metal surface sends a ray: the mirror reflection of the
      unit incoming direction, displaced by `fuzz` times the sample. */
  function MetalDirection(sqrt: real -> real, fuzz: real, ray: Ray, n: Vec3, ball: Vec3): Vec3
    requires IsSqrt(sqrt) && IsUnit(n)
  {
    Add(Reflect(UnitVector(sqrt, ray.direction), n), Scale(fuzz, ball))
  }

  /** The cosine between the unit incoming direction and the normal, taken
      with its sign flipped when the ray enters (before it goes to `schlick`). */
  function DielectricCosine(unit: Vec3, n: Vec3): real {
    var c := Dot(unit, n);
    if c > 0.0 then c else -c
  }

  /** What a dielectric demands beyond a unit normal: `refract` demands a unit
      incoming direction, so the ray's direction must not be zero; an entering
      ray (cosine at most 0) divides by the index ratio; and `schlick`,
      reached when a refracted ray exists, divides by 1 + the index ratio. */
  predicate DielectricDefined(sqrt: real -> real, refIdx: real, ray: Ray, n: Vec3)
    requires IsSqrt(sqrt) && IsUnit(n)
  {
    !IsZero(ray.direction) &&
    var unit := UnitVector(sqrt, ray.direction);
    (Dot(unit, n) <= 0.0 ==> refIdx != 0.0) &&
    (DielectricRefracted(sqrt, refIdx, unit, n).Some? ==> 1.0 + refIdx != 0.0)
  }

  /** The refracted direction a dielectric tries: out through `-n` with the
      index ratio itself when the ray leaves the body (cosine > 0), in through
      `n` with its reciprocal when the ray enters. */
  function DielectricRefracted(sqrt: real -> real, refIdx: real, unit: Vec3, n: Vec3): (r: Option<Vec3>)
    requires IsSqrt(sqrt) && IsUnit(unit) && IsUnit(n)
    requires Dot(unit, n) <= 0.0 ==> refIdx != 0.0
    ensures r.Some? ==> IsUnit(r.value)
    ensures Dot(unit, n) > 0.0 ==> r == Refract(sqrt, unit, Neg(n), refIdx)
    ensures Dot(unit, n) <= 0.0 ==> r == Refract(sqrt, unit, n, 1.0 / refIdx)
  {
    if Dot(unit, n) > 0.0 then
      assert IsUnit(Neg(n)) by { assert Dot(Neg(n), Neg(n)) == Dot(n, n); }
      Refract(sqrt, unit, Neg(n), refIdx)
    else
      Refract(sqrt, unit, n, 1.0 / refIdx)
  }

  /** The probability of reflection: Schlick's value, or 1 under total
      internal reflection. */
  function ReflectProbability(sqrt: real -> real, refIdx: real, unit: Vec3, n: Vec3): (p: real)
    requires IsSqrt(sqrt) && IsUnit(unit) && IsUnit(n)
    requires Dot(unit, n) <= 0.0 ==> refIdx != 0.0
    requires DielectricRefracted(sqrt, refIdx, unit, n).Some? ==> 1.0 + refIdx != 0.0
    ensures DielectricRefracted(sqrt, refIdx, unit, n).None? ==> p == 1.0
    ensures DielectricRefracted(sqrt, refIdx, unit, n).Some? ==> p == Schlick(DielectricCosine(unit, n), refIdx)
    ensures 0.0 <= refIdx ==> 0.0 <= p <= 1.0
  {
    if DielectricRefracted(sqrt, refIdx, unit, n).Some? then
      DielectricCosineBounded(unit, n);
      if 0.0 <= refIdx then
        SchlickR0Bounded(refIdx);
        Schlick(DielectricCosine(unit, n), refIdx)
      else
        Schlick(DielectricCosine(unit, n), refIdx)
    else
      1.0
  }

  /** The cosine handed to `schlick` lies in [0, 1]. */
  lemma DielectricCosineBounded(unit: Vec3, n: Vec3)
    requires IsUnit(unit) && IsUnit(n)
    ensures 0.0 <= DielectricCosine(unit, n) <= 1.0
  {
    UnitDotBounded(unit, n);
  }

  /** `scatter` of the three materials. The hit record's normal is a unit
      vector (the record's constructor demands it). */
  function Scatter(sqrt: real -> real, m: Material, ray: Ray, rec: HitRecord<Material>, draw: ScatterDraw): (s: ScatterResult)
    requires IsSqrt(sqrt) && IsUnit(rec.normal)
    requires m.Dielectric? ==> DielectricDefined(sqrt, m.refIdx, ray, rec.normal)
    ensures s.scattered.Some? ==> s.scattered.value.origin == rec.point
    ensures m.Dielectric? ==> s.attenuation == Ones && s.scattered.Some?
    ensures !m.Dielectric? ==> s.attenuation == m.albedo
    ensures m.Lambertian? ==> s.scattered.Some?
  {
    match m
    case Lambertian(albedo) =>
      ScatterResult(Some(Ray(rec.point, Add(rec.normal, draw.ball))), albedo)
    case Metal(albedo, fuzz) =>
      var scattered := Ray(rec.point, MetalDirection(sqrt, fuzz, ray, rec.normal, draw.ball));
      if Dot(scattered.direction, rec.normal) > 0.0 then
        ScatterResult(Some(scattered), albedo)
      else
        ScatterResult(None, albedo)
    case Dielectric(refIdx) =>
      var unit := UnitVector(sqrt, ray.direction);
      var reflected := Reflect(unit, rec.normal);
      var refracted := DielectricRefracted(sqrt, refIdx, unit, rec.normal);
      var prob := ReflectProbability(sqrt, refIdx, unit, rec.normal);
      if draw.coin < prob then
        ScatterResult(Some(Ray(rec.point, reflected)), Ones)
      else
        ScatterResult(Some(Ray(rec.point, refracted.value)), Ones)
  }

  /** A Lambertian surface always scatters, from the hit point towards the
      normal displaced by the sample; with a sample strictly inside the unit
      ball the scattered ray leaves on the normal's side of the surface. */
  lemma LambertianScatters(sqrt: real -> real, albedo: Vec3, ray: Ray, rec: HitRecord<Material>, draw: ScatterDraw)
    requires IsSqrt(sqrt) && IsUnit(rec.normal)
    ensures Scatter(sqrt, Lambertian(albedo), ray, rec, draw)
         == ScatterResult(Some(Ray(rec.point, Add(rec.normal, draw.ball))), albedo)
    ensures InUnitBall(draw.ball) ==> 0.0 < Dot(Add(rec.normal, draw.ball), rec.normal)
  {
    if InUnitBall(draw.ball) {
      CauchySchwarz(draw.ball, rec.normal);
      SqBelowOne(Dot(draw.ball, rec.normal));
      assert Sq(Dot(draw.ball, rec.normal)) < 1.0;
    }
  }

  /** A metal surface absorbs exactly when the fuzzed reflection does not point
      out of the surface; otherwise it sends that fuzzed reflection out from
      the hit point. It reports its albedo either way. */
  lemma MetalAbsorbs(sqrt: real -> real, albedo: Vec3, fuzz: real, ray: Ray, rec: HitRecord<Material>, draw: ScatterDraw)
    requires IsSqrt(sqrt) && IsUnit(rec.normal)
    ensures Scatter(sqrt, Metal(albedo, fuzz), ray, rec, draw).scattered.None?
        <==> Dot(MetalDirection(sqrt, fuzz, ray, rec.normal, draw.ball), rec.normal) <= 0.0
    ensures Scatter(sqrt, Metal(albedo, fuzz), ray, rec, draw).scattered.Some? ==>
      Scatter(sqrt, Metal(albedo, fuzz), ray, rec, draw).scattered.value
        == Ray(rec.point, Add(Reflect(UnitVector(sqrt, ray.direction), rec.normal), Scale(fuzz, draw.ball)))
    ensures Scatter(sqrt, Metal(albedo, fuzz), ray, rec, draw).attenuation == albedo
  {
  }

  /** A perfect mirror (fuzz 0) scatters exactly the rays that arrive from the
      normal's side, i.e. whose direction has negative dot product with it,
      and sends them along the mirror reflection of the unit direction. */
  lemma MirrorScattersFrontRays(sqrt: real -> real, albedo: Vec3, ray: Ray, rec: HitRecord<Material>, draw: ScatterDraw)
    requires IsSqrt(sqrt) && IsUnit(rec.normal) && !IsZero(ray.direction)
    ensures Scatter(sqrt, Metal(albedo, 0.0), ray, rec, draw).scattered.Some?
        <==> Dot(ray.direction, rec.normal) < 0.0
    ensures Scatter(sqrt, Metal(albedo, 0.0), ray, rec, draw).scattered.Some? ==>
      Scatter(sqrt, Metal(albedo, 0.0), ray, rec, draw).scattered.value
        == Ray(rec.point, Reflect(UnitVector(sqrt, ray.direction), rec.normal))
  {
    var unit := UnitVector(sqrt, ray.direction);
    var k := Norm(sqrt, ray.direction);
    assert Scale(k, unit) == ray.direction;
    assert MetalDirection(sqrt, 0.0, ray, rec.normal, draw.ball) == Reflect(unit, rec.normal);
    ScaleKeepsSign(k, unit, rec.normal);
  }

  /** Scaling by a positive factor keeps the sign of a dot product. */
  lemma ScaleKeepsSign(k: real, u: Vec3, n: Vec3)
    requires 0.0 < k
    ensures Dot(Scale(k, u), n) < 0.0 <==> Dot(u, n) < 0.0
  {
    assert Dot(Scale(k, u), n) == Mult(k, Dot(u, n));
    if Dot(u, n) < 0.0 {
      MulPos(k, -Dot(u, n));
      assert Mult(k, -Dot(u, n)) == -Mult(k, Dot(u, n));
    } else {
      MulNonneg(k, Dot(u, n));
    }
  }

  /** A dielectric never absorbs: it sends a unit-length ray from the hit point
      along the reflected or the refracted direction, with attenuation 1. Under
      total internal reflection it always reflects; otherwise it reflects
      exactly when the coin falls below Schlick's reflectance at the cosine of
      incidence, and refracts when it does not. */
  lemma DielectricScatters(sqrt: real -> real, refIdx: real, ray: Ray, rec: HitRecord<Material>, draw: ScatterDraw)
    requires IsSqrt(sqrt) && IsUnit(rec.normal)
    requires DielectricDefined(sqrt, refIdx, ray, rec.normal)
    ensures var s := Scatter(sqrt, Dielectric(refIdx), ray, rec, draw);
      var unit := UnitVector(sqrt, ray.direction);
      var refracted := DielectricRefracted(sqrt, refIdx, unit, rec.normal);
      s.scattered.Some? && s.scattered.value.origin == rec.point && s.attenuation == Ones &&
      IsUnit(s.scattered.value.direction) &&
      (s.scattered.value.direction == Reflect(unit, rec.normal) ||
       (refracted.Some? && s.scattered.value.direction == refracted.value)) &&
      (refracted.None? ==> s.scattered.value.direction == Reflect(unit, rec.normal)) &&
      (refracted.Some? ==>
         s.scattered.value.direction ==
           if draw.coin < Schlick(DielectricCosine(unit, rec.normal), refIdx)
           then Reflect(unit, rec.normal) else refracted.value)
  {
  }
}
