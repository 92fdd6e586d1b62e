/** The surfaces of engine/surface.py: spheres, assemblies of surfaces, and the
    nearest-hit query a ray makes against them.

    A surface is a value here: a sphere, or an assembly holding a sequence of
    surfaces (an assembly is itself a surface, so assemblies nest). The mutable
    assembly that the engine builds with `add_object` is the class
    `SurfaceAssembly` at the end of this module. */
module Surfaces {
  import opened Vectors
  import opened Options
  import opened Rays
  import opened HitRecords
  import opened Materials

  datatype Surface =
    | Sphere(center: Vec3, radius: real, material: Material)
    | Assembly(objects: seq<Surface>)

  /** What `hit` returns: the record of the hit, if any, and the ray parameter
      of the hit (the upper bound `t_max` when there is none). */
  datatype HitResult = HitResult(rec: Option<HitRecord<Material>>, t: real)

  /** The quadratic a t^2 + 2 b t + c in the ray parameter t. */
  datatype Quadratic = Quadratic(a: real, b: real, c: real)

  function Discriminant(q: Quadratic): real {
    Sq(q.b) - Mult(q.a, q.c)
  }

  function Eval(q: Quadratic, t: real): real {
    Mult(q.a, Sq(t)) + 2.0 * Mult(q.b, t) + q.c
  }

  /** The quadratic whose zeros are the parameters at which the ray meets the
      sphere: a = d.d, b = (o - center).d, c = |o - center|^2 - radius^2. */
  function SphereQuadratic(ray: Ray, center: Vec3, radius: real): Quadratic {
    var oc := Sub(ray.origin, center);
    Quadratic(Dot(ray.direction, ray.direction), Dot(oc, ray.direction), Dot(oc, oc) - Sq(radius))
  }

  /** The quadratic measures how far the ray's point at t is from the sphere:
      it is |P(t) - center|^2 - radius^2. */
  lemma EvalIsDistance(ray: Ray, center: Vec3, radius: real, t: real)
    ensures Eval(SphereQuadratic(ray, center, radius), t)
         == Dot(Sub(PointAt(ray, t), center), Sub(PointAt(ray, t), center)) - Sq(radius)
  {
    var oc := Sub(ray.origin, center);
    var step := Scale(t, ray.direction);
    assert Sub(PointAt(ray, t), center) == Add(oc, step);
    DotAddExpand(oc, step);
    DotScaleRight(oc, t, ray.direction);
    DotScale(t, ray.direction);
    assert Mult(Dot(ray.direction, ray.direction), Sq(t)) == Sq(t) * Dot(ray.direction, ray.direction);
    assert Mult(Dot(oc, ray.direction), t) == Mult(t, Dot(oc, ray.direction));
  }

  predicate OnSphere(p: Vec3, center: Vec3, radius: real) {
    Dot(Sub(p, center), Sub(p, center)) == Sq(radius)
  }

  /** The sign used to pick the numerically stable root. `np.sign` gives 0 at
      0; this model takes +1 there (see `SignAsWritten`). */
  function Sign(b: real): real {
    if b >= 0.0 then 1.0 else -1.0
  }

  /** The first root as the engine computes it, -(b + sign(b) s) / a, with s
      the square root of the discriminant. */
  function Root1(q: Quadratic, s: real): real
    requires q.a != 0.0
  {
    -(q.b + Sign(q.b) * s) / q.a
  }

  /** The second root as the engine computes it from the first, c / (a t1). */
  function SecondRoot(q: Quadratic, t1: real): real
    requires q.a != 0.0 && t1 != 0.0
  {
    q.c / (q.a * t1)
  }

  function Root2(q: Quadratic, s: real): real
    requires q.a != 0.0 && Root1(q, s) != 0.0
  {
    SecondRoot(q, Root1(q, s))
  }

  /** The two roots are distinct zeros of the quadratic: t1 is never 0, t2 is
      -(b - sign(b) s) / a, and they satisfy Vieta's relations. */
  lemma Roots(q: Quadratic, s: real)
    requires 0.0 < q.a && 0.0 < s && Sq(s) == Discriminant(q)
    ensures Root1(q, s) != 0.0
    ensures Root2(q, s) == -(q.b - Sign(q.b) * s) / q.a
    ensures Root1(q, s) != Root2(q, s)
    ensures Root1(q, s) + Root2(q, s) == -2.0 * q.b / q.a
    ensures Mult(Root1(q, s), Root2(q, s)) == q.c / q.a
    ensures Eval(q, Root1(q, s)) == 0.0 && Eval(q, Root2(q, s)) == 0.0
  {
    RootsVieta(q, s);
    var sg := Sign(q.b);
    RootOf(q, s, sg);
    assert -(q.b + (-sg) * s) == -(q.b - sg * s);
    RootOf(q, s, -sg);
  }

  /** The algebraic half of `Roots`: the closed form of t2 and Vieta's relations. */
  lemma RootsVieta(q: Quadratic, s: real)
    requires 0.0 < q.a && 0.0 < s && Sq(s) == Discriminant(q)
    ensures Root1(q, s) != 0.0
    ensures Root2(q, s) == -(q.b - Sign(q.b) * s) / q.a
    ensures Root1(q, s) != Root2(q, s)
    ensures Root1(q, s) + Root2(q, s) == -2.0 * q.b / q.a
    ensures Mult(Root1(q, s), Root2(q, s)) == q.c / q.a
  {
    var sg := Sign(q.b);
    var u := q.b + sg * s;
    var w := q.b - sg * s;
    RootTerms(q.b, s, sg);
    assert Mult(u, w) == Mult(q.a, q.c);
    RootQuotients(q.a, u, w, q.c);
    RootSum(q.a, u, w, q.b);
    assert Root1(q, s) == -u / q.a;
    assert Root2(q, s) == -w / q.a by {
      assert Root2(q, s) == q.c / (q.a * (-u / q.a));
    }
  }

  /** With sign(b) = +-1 and s > 0, b + sign(b) s is never 0 (no cancellation),
      differs from b - sign(b) s, and their product is b^2 - s^2. */
  lemma RootTerms(b: real, s: real, sg: real)
    requires 0.0 < s && sg == Sign(b)
    ensures b + sg * s != 0.0 && b + sg * s != b - sg * s
    ensures (b + sg * s) + (b - sg * s) == 2.0 * b
    ensures Mult(b + sg * s, b - sg * s) == Sq(b) - Sq(s)
  {
    if b >= 0.0 {
      assert b + sg * s == b + s && b - sg * s == b - s;
    } else {
      assert b + sg * s == b - s && b - sg * s == b + s;
    }
  }

  /** The quotients -u / a and -w / a of distinct u, w are distinct and sum to
      -(u + w) / a. */
  lemma RootSum(a: real, u: real, w: real, b: real)
    requires 0.0 < a && u != w && u + w == 2.0 * b
    ensures -u / a != -w / a
    ensures -u / a + -w / a == -2.0 * b / a
  {
    assert a * (-u / a) == -u;
    assert a * (-w / a) == -w;
  }

  /** The division steps behind `Roots`, for u w = a c. */
  lemma RootQuotients(a: real, u: real, w: real, c: real)
    requires 0.0 < a && u != 0.0 && Mult(u, w) == Mult(a, c)
    ensures -u / a != 0.0
    ensures c / (a * (-u / a)) == -w / a
    ensures Mult(-u / a, -w / a) == c / a
  {
    var t1 := -u / a;
    assert a * t1 == -u;
    assert c / (a * t1) == c / (-u);
    assert u * w == a * c;
    assert c / (-u) == -w / a;
    var t2 := -w / a;
    assert a * t2 == -w;
    assert (a * t1) * (a * t2) == a * c;
    assert Mult(t1, t2) * a == c;
  }

  lemma RootOf(q: Quadratic, s: real, sg: real)
    requires 0.0 < q.a && Sq(s) == Discriminant(q) && (sg == 1.0 || sg == -1.0)
    ensures Eval(q, -(q.b + sg * s) / q.a) == 0.0
  {
    var t := -(q.b + sg * s) / q.a;
    var u := q.a * t;
    assert u == -(q.b + sg * s);
    assert Mult(q.a, Eval(q, t)) == Sq(u) + 2.0 * Mult(q.b, u) + Mult(q.a, q.c);
    assert Sq(u) + 2.0 * Mult(q.b, u) + Mult(q.a, q.c) == 0.0;
    MulZero(q.a, Eval(q, t));
  }

  /** Every zero of the quadratic is one of the two roots the engine computes. */
  lemma OnlyRoots(q: Quadratic, s: real, t: real)
    requires 0.0 < q.a && 0.0 < s && Sq(s) == Discriminant(q)
    requires Eval(q, t) == 0.0
    ensures Root1(q, s) != 0.0
    ensures t == Root1(q, s) || t == Root2(q, s)
  {
    Roots(q, s);
    Factor(q, Root1(q, s), Root2(q, s), t);
    MulZero(q.a, Mult(t - Root1(q, s), t - Root2(q, s)));
    MulZero(t - Root1(q, s), t - Root2(q, s));
  }

  /** a t^2 + 2 b t + c = a (t - t1)(t - t2) when t1 + t2 = -2b/a and t1 t2 = c/a. */
  lemma Factor(q: Quadratic, t1: real, t2: real, t: real)
    requires 0.0 < q.a && t1 + t2 == -2.0 * q.b / q.a && Mult(t1, t2) == q.c / q.a
    ensures Mult(q.a, Mult(t - t1, t - t2)) == Eval(q, t)
  {
    assert q.a * (t1 + t2) == -2.0 * q.b;
    assert q.a * Mult(t1, t2) == q.c;
  }

  /** A positive discriminant needs a moving ray and a sphere of non-zero
      radius (by Cauchy-Schwarz a point sphere is never crossed). */
  lemma DiscriminantPositive(ray: Ray, center: Vec3, radius: real)
    requires 0.0 < Discriminant(SphereQuadratic(ray, center, radius))
    ensures radius != 0.0 && !IsZero(ray.direction)
    ensures 0.0 < SphereQuadratic(ray, center, radius).a
  {
    var q := SphereQuadratic(ray, center, radius);
    var oc := Sub(ray.origin, center);
    CauchySchwarz(oc, ray.direction);
    DotSelfPositive(ray.direction);
    DotSelfPositive(oc);
    NoRootWithoutRadius(q.a, q.b, Dot(oc, oc), radius);
  }

  lemma NoRootWithoutRadius(a: real, b: real, d: real, radius: real)
    requires Sq(b) <= d * a && 0.0 <= a
    requires 0.0 < Sq(b) - Mult(a, d - Sq(radius))
    ensures radius != 0.0 && a != 0.0
  {
  }

  /** On the sphere, (p - center) / radius has unit length, whatever the sign
      of the radius, and its component along p - center is the radius: it
      points away from the centre for a positive radius and towards it for a
      negative one. */
  lemma NormalIsUnit(p: Vec3, center: Vec3, radius: real)
    requires radius != 0.0 && OnSphere(p, center, radius)
    ensures IsUnit(Div(Sub(p, center), radius))
    ensures Dot(Div(Sub(p, center), radius), Sub(p, center)) == radius
  {
    var d := Sub(p, center);
    DivIsScale(d, radius);
    DotScale(1.0 / radius, d);
    assert Sq(1.0 / radius) * Sq(radius) == 1.0;
    assert Dot(Scale(1.0 / radius, d), d) == Mult(1.0 / radius, Dot(d, d));
    assert Mult(1.0 / radius, Sq(radius)) == radius;
  }

  /** The reference definition of a sphere hit at t: the ray crosses the
      sphere (it is not tangent to it and does not miss it) and its point at t
      lies on the sphere. */
  predicate SphereQualifies(center: Vec3, radius: real, ray: Ray, t: real) {
    0.0 < Discriminant(SphereQuadratic(ray, center, radius)) && OnSphere(PointAt(ray, t), center, radius)
  }

  /** The record of a sphere hit at t: the ray's point, the normal
      (point - center) / radius, and the sphere's material. The normal is the
      unit vector whose component along point - center is the radius: outward
      for a positive radius, inward for a negative one (a hollow sphere). */
  function SphereRecord(center: Vec3, radius: real, material: Material, ray: Ray, t: real): (r: HitRecord<Material>)
    requires SphereQualifies(center, radius, ray, t)
    ensures r.point == PointAt(ray, t) && IsUnit(r.normal) && r.material == material
    ensures Dot(r.normal, Sub(r.point, center)) == radius
  {
    DiscriminantPositive(ray, center, radius);
    NormalIsUnit(PointAt(ray, t), center, radius);
    NewHitRecord(PointAt(ray, t), Div(Sub(PointAt(ray, t), center), radius), material)
  }

  /** The reference definition of a hit of any surface at t: a sphere as
      above, an assembly when one of its members is hit at t. */
  predicate Qualifies(s: Surface, ray: Ray, t: real)
    decreases s
  {
    match s
    case Sphere(center, radius, _) => SphereQualifies(center, radius, ray, t)
    case Assembly(objects) => QualifiesAny(objects, ray, t)
  }

  predicate QualifiesAny(objects: seq<Surface>, ray: Ray, t: real)
    decreases objects
  {
    |objects| > 0 &&
    (QualifiesAny(objects[..|objects| - 1], ray, t) || Qualifies(objects[|objects| - 1], ray, t))
  }

  /** Only a moving ray hits anything: a ray with a zero direction has a zero
      discriminant against every sphere. */
  lemma {:induction false} QualifiesMovingRay(s: Surface, ray: Ray, t: real)
    requires Qualifies(s, ray, t)
    ensures !IsZero(ray.direction)
    decreases s
  {
    match s
    case Sphere(center, radius, _) => DiscriminantPositive(ray, center, radius);
    case Assembly(objects) => QualifiesAnyMovingRay(objects, ray, t);
  }

  lemma {:induction false} QualifiesAnyMovingRay(objects: seq<Surface>, ray: Ray, t: real)
    requires QualifiesAny(objects, ray, t)
    ensures !IsZero(ray.direction)
    decreases objects
  {
    if QualifiesAny(objects[..|objects| - 1], ray, t) {
      QualifiesAnyMovingRay(objects[..|objects| - 1], ray, t);
    } else {
      QualifiesMovingRay(objects[|objects| - 1], ray, t);
    }
  }

  /** The record a surface reports for a hit at t: the sphere's record, or for
      an assembly the record of its earliest member that is hit at t. */
  function RecordAt(s: Surface, ray: Ray, t: real): (r: Option<HitRecord<Material>>)
    ensures r.Some? <==> Qualifies(s, ray, t)
    ensures r.Some? ==> r.value.point == PointAt(ray, t) && IsUnit(r.value.normal)
    decreases s
  {
    match s
    case Sphere(center, radius, material) =>
      if SphereQualifies(center, radius, ray, t) then Some(SphereRecord(center, radius, material, ray, t)) else None
    case Assembly(objects) => RecordAtAny(objects, ray, t)
  }

  function RecordAtAny(objects: seq<Surface>, ray: Ray, t: real): (r: Option<HitRecord<Material>>)
    ensures r.Some? <==> QualifiesAny(objects, ray, t)
    ensures r.Some? ==> r.value.point == PointAt(ray, t) && IsUnit(r.value.normal)
    decreases objects
  {
    if |objects| == 0 then None
    else
      var first := RecordAtAny(objects[..|objects| - 1], ray, t);
      if first.Some? then first else RecordAt(objects[|objects| - 1], ray, t)
  }

  /** `r` is what a nearest-hit query over [tmin, tmax) must return: the
      smallest parameter in range at which the surface is hit, with the record
      at that parameter; or no record and `tmax` when nothing in range is hit. */
  ghost predicate Nearest(s: Surface, ray: Ray, tmin: real, tmax: real, r: HitResult) {
    (r.rec.Some? ==>
       tmin <= r.t < tmax && Qualifies(s, ray, r.t) && r.rec == RecordAt(s, ray, r.t) &&
       forall t :: tmin <= t < r.t ==> !Qualifies(s, ray, t)) &&
    (r.rec.None? ==>
       r.t == tmax && forall t :: tmin <= t < tmax ==> !Qualifies(s, ray, t))
  }

  /** The two roots as `Sphere.hit` computes them, t1 = -(b + sign(b) s) / a
      and t2 = c / (a t1) with s the root of the discriminant, in ascending
      order: they are zeros of the quadratic and there is no other. */
  function SortedRoots(sqrt: real -> real, q: Quadratic): (r: (real, real))
    requires IsSqrt(sqrt) && 0.0 < q.a && 0.0 < Discriminant(q)
    ensures r.0 < r.1
    ensures Root1(q, sqrt(Discriminant(q))) != 0.0
    ensures r == (Root1(q, sqrt(Discriminant(q))), Root2(q, sqrt(Discriminant(q)))) ||
            r == (Root2(q, sqrt(Discriminant(q))), Root1(q, sqrt(Discriminant(q))))
    ensures r.0 + r.1 == -2.0 * q.b / q.a && Mult(r.0, r.1) == q.c / q.a
    ensures Eval(q, r.0) == 0.0 && Eval(q, r.1) == 0.0
    ensures forall t :: Eval(q, t) == 0.0 ==> t == r.0 || t == r.1
  {
    SqrtOf(sqrt, Discriminant(q));
    var s := sqrt(Discriminant(q));
    Roots(q, s);
    forall t | Eval(q, t) == 0.0
      ensures t == Root1(q, s) || t == Root2(q, s)
    {
      OnlyRoots(q, s, t);
    }
    if Root1(q, s) <= Root2(q, s) then
      (Root1(q, s), Root2(q, s))
    else
      assert Mult(Root2(q, s), Root1(q, s)) == Mult(Root1(q, s), Root2(q, s));
      (Root2(q, s), Root1(q, s))
  }

  /** With a positive discriminant the sphere is hit exactly at the zeros of
      its quadratic. */
  lemma SphereQualifiesAtZeros(center: Vec3, radius: real, ray: Ray, t: real)
    requires 0.0 < Discriminant(SphereQuadratic(ray, center, radius))
    ensures SphereQualifies(center, radius, ray, t) <==> Eval(SphereQuadratic(ray, center, radius), t) == 0.0
  {
    EvalIsDistance(ray, center, radius, t);
  }

  /** The smaller of two candidates that lies in [tmin, tmax), if any. */
  function FirstInRange(t1: real, t2: real, tmin: real, tmax: real): (r: Option<real>)
    ensures r.Some? ==> tmin <= r.value < tmax && (r.value == t1 || r.value == t2)
    ensures r.Some? ==> !(tmin <= t1 < r.value) && !(tmin <= t2 < r.value)
    ensures r.None? ==> !(tmin <= t1 < tmax) && !(tmin <= t2 < tmax)
  {
    var lo := if t1 <= t2 then t1 else t2;
    var hi := if t1 <= t2 then t2 else t1;
    if tmin <= lo && lo < tmax then Some(lo)
    else if tmin <= hi && hi < tmax then Some(hi)
    else None
  }

  /** The choice does not depend on the order of the candidates. */
  lemma FirstInRangeSymmetric(t1: real, t2: real, tmin: real, tmax: real)
    ensures FirstInRange(t1, t2, tmin, tmax) == FirstInRange(t2, t1, tmin, tmax)
  {
  }

  /** `Sphere.hit`: the smaller of the two roots that lies in [tmin, tmax). */
  function SphereHit(sqrt: real -> real, center: Vec3, radius: real, material: Material, ray: Ray, tmin: real, tmax: real): (r: HitResult)
    requires IsSqrt(sqrt)
    ensures Nearest(Sphere(center, radius, material), ray, tmin, tmax, r)
  {
    var q := SphereQuadratic(ray, center, radius);
    if Discriminant(q) > 0.0 then
      DiscriminantPositive(ray, center, radius);
      var roots := SortedRoots(sqrt, q);
      forall t
        ensures SphereQualifies(center, radius, ray, t) <==> t == roots.0 || t == roots.1
      {
        SphereQualifiesAtZeros(center, radius, ray, t);
      }
      match FirstInRange(roots.0, roots.1, tmin, tmax)
      case Some(t) => HitResult(Some(SphereRecord(center, radius, material, ray, t)), t)
      case None => HitResult(None, tmax)
    else
      HitResult(None, tmax)
  }

  /** `hit` of any surface: a sphere's own test, or the scan of an assembly. */
  function SurfaceHit(sqrt: real -> real, s: Surface, ray: Ray, tmin: real, tmax: real): (r: HitResult)
    requires IsSqrt(sqrt)
    ensures Nearest(s, ray, tmin, tmax, r)
    decreases s
  {
    match s
    case Sphere(center, radius, material) => SphereHit(sqrt, center, radius, material, ray, tmin, tmax)
    case Assembly(objects) => ScanHit(sqrt, objects, ray, tmin, tmax)
  }

  /** `SurfaceAssembly.hit` over the members in insertion order: each member is
      asked for a hit below the nearest one found so far, and a member's hit
      replaces the previous one. The result is the nearest hit of all members;
      on a tie the earlier member's record stays, because later members are
      asked with a strict upper bound. */
  function ScanHit(sqrt: real -> real, objects: seq<Surface>, ray: Ray, tmin: real, tmax: real): (r: HitResult)
    requires IsSqrt(sqrt)
    ensures Nearest(Assembly(objects), ray, tmin, tmax, r)
    decreases objects
  {
    if |objects| == 0 then
      HitResult(None, tmax)
    else
      var prefix := objects[..|objects| - 1];
      var last := objects[|objects| - 1];
      var before := ScanHit(sqrt, prefix, ray, tmin, tmax);
      var current := SurfaceHit(sqrt, last, ray, tmin, before.t);
      AssemblySplit(objects, ray);
      if current.rec.Some? then current else before
  }

  /** An assembly is hit at t when its members but the last are, or its last
      member is; its record at t is that of the leading members if they have
      one, else the last member's. */
  lemma AssemblySplit(objects: seq<Surface>, ray: Ray)
    requires |objects| > 0
    ensures var prefix := objects[..|objects| - 1];
      var last := objects[|objects| - 1];
      forall t ::
        (Qualifies(Assembly(objects), ray, t) <==> Qualifies(Assembly(prefix), ray, t) || Qualifies(last, ray, t)) &&
        RecordAt(Assembly(objects), ray, t)
          == if RecordAt(Assembly(prefix), ray, t).Some? then RecordAt(Assembly(prefix), ray, t) else RecordAt(last, ray, t)
  {
    var prefix := objects[..|objects| - 1];
    var last := objects[|objects| - 1];
    forall t
      ensures Qualifies(Assembly(objects), ray, t) <==> QualifiesAny(prefix, ray, t) || Qualifies(last, ray, t)
      ensures RecordAt(Assembly(objects), ray, t)
           == if RecordAtAny(prefix, ray, t).Some? then RecordAtAny(prefix, ray, t) else RecordAt(last, ray, t)
    {
      assert Qualifies(Assembly(objects), ray, t) == QualifiesAny(objects, ray, t);
      assert RecordAt(Assembly(objects), ray, t) == RecordAtAny(objects, ray, t);
    }
  }

  /** Adding a member never raises the parameter the scan reports: the
      running bound `closest` only decreases. */
  lemma ScanNonIncreasing(sqrt: real -> real, objects: seq<Surface>, obj: Surface, ray: Ray, tmin: real, tmax: real)
    requires IsSqrt(sqrt)
    ensures ScanHit(sqrt, objects + [obj], ray, tmin, tmax).t <= ScanHit(sqrt, objects, ray, tmin, tmax).t <= tmax
  {
    assert (objects + [obj])[..|objects|] == objects;
  }

  /** `np.sign`, which is 0 at 0. */
  function SignAsWritten(b: real): real {
    if b > 0.0 then 1.0 else if b < 0.0 then -1.0 else 0.0
  }

  /** `Sphere.hit` as written, with `np.sign`: the parameter its root choice
      picks, at which it goes on to build the hit record, or `None` when it
      returns `(None, t_max)`. */
  function SphereHitAsWritten(sqrt: real -> real, center: Vec3, radius: real, ray: Ray, tmin: real, tmax: real): (r: Option<real>)
    requires IsSqrt(sqrt)
    ensures r.Some? ==> tmin <= r.value < tmax
  {
    var q := SphereQuadratic(ray, center, radius);
    if Discriminant(q) > 0.0 then
      DiscriminantPositive(ray, center, radius);
      RootChoiceAsWritten(q, sqrt(Discriminant(q)), tmin, tmax)
    else
      None
  }

  /** The first root as written, -(b + np.sign(b) s) / a. */
  function Root1AsWritten(q: Quadratic, s: real): real
    requires q.a != 0.0
  {
    -(q.b + SignAsWritten(q.b) * s) / q.a
  }

  /** The root choice as written. When b = 0 the first root -(b + 0 s) / a is 0
      and the second, c / (a 0), is an IEEE infinity (+inf, since c < 0 there),
      which no finite `t_max` exceeds: only the candidate 0 is left. */
  function RootChoiceAsWritten(q: Quadratic, s: real, tmin: real, tmax: real): (r: Option<real>)
    requires q.a != 0.0
    ensures r.Some? ==> tmin <= r.value < tmax
  {
    var t1 := Root1AsWritten(q, s);
    if t1 == 0.0 then
      if tmin <= t1 && t1 < tmax then Some(t1) else None
    else
      FirstInRange(t1, SecondRoot(q, t1), tmin, tmax)
  }

  /** Off b = 0 the two signs agree, and so do the written and the corrected test. */
  lemma AsWrittenAgreesOffZero(sqrt: real -> real, center: Vec3, radius: real, material: Material, ray: Ray, tmin: real, tmax: real)
    requires IsSqrt(sqrt)
    requires SphereQuadratic(ray, center, radius).b != 0.0
    ensures var r := SphereHit(sqrt, center, radius, material, ray, tmin, tmax);
      SphereHitAsWritten(sqrt, center, radius, ray, tmin, tmax) == if r.rec.Some? then Some(r.t) else None
  {
    var q := SphereQuadratic(ray, center, radius);
    if Discriminant(q) > 0.0 {
      DiscriminantPositive(ray, center, radius);
      var roots := SortedRoots(sqrt, q);
      var s := sqrt(Discriminant(q));
      RootChoiceOffZero(q, s, tmin, tmax);
      FirstInRangeSymmetric(roots.0, roots.1, tmin, tmax);
      var choice := FirstInRange(roots.0, roots.1, tmin, tmax);
      assert SphereHitAsWritten(sqrt, center, radius, ray, tmin, tmax) == choice;
      var r := SphereHit(sqrt, center, radius, material, ray, tmin, tmax);
      assert r.rec.Some? <==> choice.Some?;
      assert choice.Some? ==> r.t == choice.value;
    }
  }

  lemma RootChoiceOffZero(q: Quadratic, s: real, tmin: real, tmax: real)
    requires q.a != 0.0 && q.b != 0.0 && Root1(q, s) != 0.0
    ensures RootChoiceAsWritten(q, s, tmin, tmax) == FirstInRange(Root1(q, s), Root2(q, s), tmin, tmax)
  {
    assert SignAsWritten(q.b) == Sign(q.b);
    assert Root1AsWritten(q, s) == Root1(q, s);
  }

  /** A ray that starts at a sphere's centre (its offset from the centre is
      the zero vector) with a unit direction: its quadratic is
      t^2 - radius^2, so a = 1 and b = 0. */
  lemma CentredQuadratic(center: Vec3, radius: real, ray: Ray)
    requires IsZero(Sub(ray.origin, center)) && IsUnit(ray.direction)
    ensures SphereQuadratic(ray, center, radius).a == 1.0
    ensures SphereQuadratic(ray, center, radius).b == 0.0
    ensures SphereQuadratic(ray, center, radius).c == -Sq(radius)
  {
    QuadraticTerms(ray, center, radius);
    ZeroOffset(Sub(ray.origin, center), ray.direction);
  }

  lemma QuadraticTerms(ray: Ray, center: Vec3, radius: real)
    ensures var oc := Sub(ray.origin, center);
      var q := SphereQuadratic(ray, center, radius);
      q.a == Dot(ray.direction, ray.direction) && q.b == Dot(oc, ray.direction) && q.c == Dot(oc, oc) - Sq(radius)
  {
  }

  /** The zero vector is orthogonal to everything (by Cauchy-Schwarz). */
  lemma ZeroOffset(v: Vec3, w: Vec3)
    requires IsZero(v)
    ensures Dot(v, w) == 0.0
  {
    CauchySchwarz(v, w);
    SqPositive(Dot(v, w));
  }

  lemma UnitQuadraticDiscriminant(q: Quadratic, radius: real)
    requires q.a == 1.0 && q.b == 0.0 && q.c == -Sq(radius)
    ensures Discriminant(q) == Sq(radius)
  {
    assert Sq(0.0) == 0.0;
  }

  /** Such a ray always crosses the sphere: its discriminant is radius^2. */
  lemma CentredDiscriminant(center: Vec3, radius: real, ray: Ray)
    requires 0.0 < radius && IsZero(Sub(ray.origin, center)) && IsUnit(ray.direction)
    ensures Discriminant(SphereQuadratic(ray, center, radius)) == Sq(radius) > 0.0
  {
    CentredQuadratic(center, radius, ray);
    UnitQuadraticDiscriminant(SphereQuadratic(ray, center, radius), radius);
    SqPositive(radius);
  }

  /** Its point at t is on the sphere exactly when t^2 = radius^2. */
  lemma CentredOnSphere(center: Vec3, radius: real, ray: Ray, t: real)
    requires ray.origin == center && IsUnit(ray.direction)
    ensures OnSphere(PointAt(ray, t), center, radius) <==> Sq(t) == Sq(radius)
  {
    DotScale(t, ray.direction);
  }

  lemma SqBelow(t: real, r: real)
    requires 0.0 <= t < r
    ensures Sq(t) < Sq(r)
  {
    MulPos(r - t, r + t);
    assert Sq(r) - Sq(t) == Mult(r - t, r + t);
  }

  /** It crosses the sphere at t = radius ... */
  lemma CentredRayCrossesAtRadius(center: Vec3, radius: real, material: Material, ray: Ray)
    requires 0.0 < radius && ray.origin == center && IsUnit(ray.direction)
    ensures Qualifies(Sphere(center, radius, material), ray, radius)
  {
    SubZero(ray.origin, center);
    CentredDiscriminant(center, radius, ray);
    CentredOnSphere(center, radius, ray, radius);
  }

  /** ... and nowhere in [0, radius). */
  lemma CentredRayNoEarlierCrossing(center: Vec3, radius: real, material: Material, ray: Ray)
    requires 0.0 < radius && ray.origin == center && IsUnit(ray.direction)
    ensures forall u :: 0.0 <= u < radius ==> !Qualifies(Sphere(center, radius, material), ray, u)
  {
    forall u | 0.0 <= u < radius
      ensures !Qualifies(Sphere(center, radius, material), ray, u)
    {
      CentredInside(center, radius, ray, u);
    }
  }

  lemma CentredInside(center: Vec3, radius: real, ray: Ray, u: real)
    requires 0.0 <= u < radius && ray.origin == center && IsUnit(ray.direction)
    ensures !OnSphere(PointAt(ray, u), center, radius)
  {
    CentredOnSphere(center, radius, ray, u);
    SqBelow(u, radius);
  }

  /** With a = 1 and b = 0 the written first root is -(0 + 0 s) / 1 = 0, the
      only finite candidate. */
  lemma RootChoiceCentred(q: Quadratic, s: real, tmin: real, tmax: real)
    requires q.a == 1.0 && q.b == 0.0
    ensures RootChoiceAsWritten(q, s, tmin, tmax) == if tmin <= 0.0 < tmax then Some(0.0) else None
  {
    assert Root1AsWritten(q, s) == 0.0;
  }

  /** A surface query returns the first crossing in range, when there is one. */
  lemma HitAtFirstCrossing(sqrt: real -> real, s: Surface, ray: Ray, tmin: real, tmax: real, t: real)
    requires IsSqrt(sqrt)
    requires tmin <= t < tmax && Qualifies(s, ray, t)
    requires forall u :: tmin <= u < t ==> !Qualifies(s, ray, u)
    ensures SurfaceHit(sqrt, s, ray, tmin, tmax).rec.Some?
    ensures SurfaceHit(sqrt, s, ray, tmin, tmax).t == t
    ensures SurfaceHit(sqrt, s, ray, tmin, tmax).rec.value.point == PointAt(ray, t)
  {
  }

  /** With sign(0) = +1, a ray from the centre hits the sphere where it
      leaves it, at t = radius, for every range [tmin, tmax) that admits it. */
  lemma CorrectedHitsCentredRay(sqrt: real -> real, center: Vec3, radius: real, material: Material, ray: Ray, tmin: real, tmax: real)
    requires IsSqrt(sqrt)
    requires 0.0 < radius && ray.origin == center && IsUnit(ray.direction)
    requires 0.0 < tmin <= radius < tmax
    ensures var r := SurfaceHit(sqrt, Sphere(center, radius, material), ray, tmin, tmax);
      r.rec.Some? && r.t == radius && r.rec.value.point == Add(center, Scale(radius, ray.direction))
  {
    CentredRayCrossesAtRadius(center, radius, material, ray);
    CentredRayNoEarlierCrossing(center, radius, material, ray);
    HitAtFirstCrossing(sqrt, Sphere(center, radius, material), ray, tmin, tmax, radius);
  }

  /** As written, the sphere test misses every ray that starts at the
      sphere's centre: b = 0 there, so t1 = 0 falls below a positive t_min and
      t2 is infinite, although the ray crosses the sphere at t = radius, inside
      the range. */
  lemma AsWrittenMissesCentredRay(sqrt: real -> real, center: Vec3, radius: real, material: Material, ray: Ray, tmin: real, tmax: real)
    requires IsSqrt(sqrt)
    requires 0.0 < radius && ray.origin == center && IsUnit(ray.direction)
    requires 0.0 < tmin <= radius < tmax
    ensures SphereHitAsWritten(sqrt, center, radius, ray, tmin, tmax).None?
    ensures Qualifies(Sphere(center, radius, material), ray, radius)
  {
    SubZero(ray.origin, center);
    CentredQuadratic(center, radius, ray);
    CentredDiscriminant(center, radius, ray);
    var q := SphereQuadratic(ray, center, radius);
    RootChoiceCentred(q, sqrt(Discriminant(q)), tmin, tmax);
    CentredRayCrossesAtRadius(center, radius, material, ray);
  }

  /** As written, with a range that admits t = 0, the root choice picks t = 0:
      the ray's origin, which is not on the sphere. The normal computed there,
      (point - center) / radius, is the zero vector, so the unit-normal
      assertion of the hit record's constructor fails and the hit raises
      instead of reporting a record. */
  lemma AsWrittenHitsCentre(sqrt: real -> real, center: Vec3, radius: real, ray: Ray, tmin: real, tmax: real)
    requires IsSqrt(sqrt)
    requires 0.0 < radius && ray.origin == center && IsUnit(ray.direction)
    requires tmin <= 0.0 < tmax
    ensures SphereHitAsWritten(sqrt, center, radius, ray, tmin, tmax) == Some(0.0)
    ensures !OnSphere(PointAt(ray, 0.0), center, radius)
    ensures IsZero(Div(Sub(PointAt(ray, 0.0), center), radius))
  {
    SubZero(ray.origin, center);
    CentredQuadratic(center, radius, ray);
    CentredDiscriminant(center, radius, ray);
    var q := SphereQuadratic(ray, center, radius);
    RootChoiceCentred(q, sqrt(Discriminant(q)), tmin, tmax);
    CentredOnSphere(center, radius, ray, 0.0);
    assert Sq(0.0) == 0.0;
    SubZero(PointAt(ray, 0.0), center);
    ZeroNormal(Sub(PointAt(ray, 0.0), center), radius);
  }

  /** Dividing the zero vector by a radius leaves it zero: it is no unit normal. */
  lemma ZeroNormal(d: Vec3, radius: real)
    requires radius != 0.0 && IsZero(d)
    ensures IsZero(Div(d, radius))
  {
    DivIsScale(d, radius);
    DotScale(1.0 / radius, d);
  }

  /** The mutable assembly of engine/surface.py: a list of surfaces that
      `add_object` appends to, and the nearest-hit scan over it. */
  class SurfaceAssembly {
    var objects: seq<Surface>

    /** A value snapshot of the assembly, as a surface. */
    function AsSurface(): Surface
      reads this
    {
      Assembly(objects)
    }

    constructor ()
      ensures objects == []
    {
      objects := [];
    }

    /** Appends a surface; the earlier members keep their order. */
    method AddObject(obj: Surface)
      modifies this
      ensures objects == old(objects) + [obj]
    {
      objects := objects + [obj];
    }

    /** The scan: every member is asked for a hit in [tmin, closest), and a
        hit lowers `closest` to its parameter and becomes the record. */
    method Hit(sqrt: real -> real, ray: Ray, tmin: real, tmax: real) returns (rec: Option<HitRecord<Material>>, closest: real)
      requires IsSqrt(sqrt)
      ensures HitResult(rec, closest) == ScanHit(sqrt, objects, ray, tmin, tmax)
      ensures Nearest(AsSurface(), ray, tmin, tmax, HitResult(rec, closest))
      ensures closest <= tmax
    {
      rec := None;
      closest := tmax;
      for i := 0 to |objects|
        invariant HitResult(rec, closest) == ScanHit(sqrt, objects[..i], ray, tmin, tmax)
        invariant closest <= tmax
      {
        var current := SurfaceHit(sqrt, objects[i], ray, tmin, closest);
        assert objects[..i + 1][..i] == objects[..i];
        if current.rec.Some? {
          closest := current.t;
          rec := current.rec;
        }
      }
      assert objects[..|objects|] == objects;
    }
  }
}
