/** The thin-lens camera of engine/camera.py. The constructor computes every
    field once and nothing changes them afterwards, so a camera is a value.
    `np.tan(vfov / 2)` is taken as the input `halfHeight`; the point on the
    lens that `get_ray` draws is the input `disk`. */
module Cameras {
  import opened Vectors
  import opened Rays
  import opened Utils

  datatype Camera = Camera(
    lensRadius: real,
    origin: Vec3,
    u: Vec3, v: Vec3, w: Vec3,
    lowerLeft: Vec3, horizontal: Vec3, vertical: Vec3)

  /** The centre of the focus window, `lower_left + horizontal / 2 + vertical / 2`. */
  function WindowCentre(c: Camera): Vec3 {
    Add(Add(c.lowerLeft, Scale(0.5, c.horizontal)), Scale(0.5, c.vertical))
  }

  /** The point of the focus window at relative coordinates (s, t). */
  function WindowPoint(c: Camera, s: real, t: real): Vec3 {
    Add(Add(c.lowerLeft, Scale(s, c.horizontal)), Scale(t, c.vertical))
  }

  /** `Camera.__init__`: the lens radius is half the aperture; w points from
      `lookat` back to `lookfrom`, u is the unit vector along vup x w and
      v = w x u; the focus window lies at distance focusDist along -w and spans
      2 halfWidth focusDist along u and 2 halfHeight focusDist along v, with
      halfWidth = aspect halfHeight. */
  function MakeCamera(sqrt: real -> real, lookfrom: Vec3, lookat: Vec3, vup: Vec3,
                      halfHeight: real, aspect: real, aperture: real, focusDist: real): (c: Camera)
    requires IsSqrt(sqrt)
    ensures c.lensRadius == aperture / 2.0 && c.origin == lookfrom
    ensures lookfrom != lookat ==>
      IsUnit(c.w) && Scale(Norm(sqrt, Sub(lookfrom, lookat)), c.w) == Sub(lookfrom, lookat)
    ensures !IsZero(Cross(vup, c.w)) ==>
      IsUnit(c.u) && Scale(Norm(sqrt, Cross(vup, c.w)), c.u) == Cross(vup, c.w)
    ensures c.v == Cross(c.w, c.u)
    ensures c.horizontal == Scale(2.0 * (aspect * halfHeight * focusDist), c.u)
    ensures c.vertical == Scale(2.0 * (halfHeight * focusDist), c.v)
    ensures WindowCentre(c) == Sub(lookfrom, Scale(focusDist, c.w))
  {
    SubZero(lookfrom, lookat);
    var w := UnitVector(sqrt, Sub(lookfrom, lookat));
    var u := UnitVector(sqrt, Cross(vup, w));
    Frame(aperture / 2.0, lookfrom, u, Cross(w, u), w, aspect * halfHeight * focusDist, halfHeight * focusDist, focusDist)
  }

  /** The camera whose lens of the given radius sits at `origin`, with basis
      u, v, w and a focus window at distance f along -w that spans 2x along u
      and 2y along v. */
  function Frame(lensRadius: real, origin: Vec3, u: Vec3, v: Vec3, w: Vec3, x: real, y: real, f: real): (c: Camera)
    ensures c.lensRadius == lensRadius && c.origin == origin && c.u == u && c.v == v && c.w == w
    ensures c.horizontal == Scale(2.0 * x, u) && c.vertical == Scale(2.0 * y, v)
    ensures WindowCentre(c) == Sub(origin, Scale(f, w))
  {
    Camera(
      lensRadius,
      origin,
      u, v, w,
      Sub(Sub(Sub(origin, Scale(x, u)), Scale(y, v)), Scale(f, w)),
      Scale(2.0 * x, u),
      Scale(2.0 * y, v))
  }

  /** u, v, w are pairwise orthogonal unit vectors. */
  predicate Orthonormal(c: Camera) {
    IsUnit(c.u) && IsUnit(c.v) && IsUnit(c.w) &&
    Dot(c.u, c.v) == 0.0 && Dot(c.u, c.w) == 0.0 && Dot(c.v, c.w) == 0.0
  }

  /** When lookfrom differs from lookat and vup is not parallel to the viewing
      direction, the camera's basis is orthonormal and right-handed (v = w x u). */
  lemma MakeCameraOrthonormal(sqrt: real -> real, lookfrom: Vec3, lookat: Vec3, vup: Vec3,
                              halfHeight: real, aspect: real, aperture: real, focusDist: real)
    requires IsSqrt(sqrt)
    requires lookfrom != lookat
    requires !IsZero(Cross(vup, UnitVector(sqrt, Sub(lookfrom, lookat))))
    ensures var c := MakeCamera(sqrt, lookfrom, lookat, vup, halfHeight, aspect, aperture, focusDist);
      Orthonormal(c) && c.v == Cross(c.w, c.u)
  {
    SubZero(lookfrom, lookat);
    var w := UnitVector(sqrt, Sub(lookfrom, lookat));
    var cr := Cross(vup, w);
    var u := UnitVector(sqrt, cr);
    CrossOrthogonal(vup, w);
    assert Dot(cr, w) == Dot(w, cr);
    UnitAlongIsOrthogonal(sqrt, cr, w);
    CrossOfOrthonormal(w, u);
    var c := MakeCamera(sqrt, lookfrom, lookat, vup, halfHeight, aspect, aperture, focusDist);
    assert c.w == w && c.u == u && c.v == Cross(w, u);
  }

  /** Normalising a vector orthogonal to w keeps it orthogonal to w. */
  lemma UnitAlongIsOrthogonal(sqrt: real -> real, a: Vec3, w: Vec3)
    requires IsSqrt(sqrt)
    requires Dot(a, w) == 0.0
    ensures Dot(UnitVector(sqrt, a), w) == 0.0
  {
    if !IsZero(a) {
      var n := Norm(sqrt, a);
      assert Scale(n, UnitVector(sqrt, a)) == a;
      DotScaleRight(w, n, UnitVector(sqrt, a));
      MulZero(n, Dot(w, UnitVector(sqrt, a)));
    }
  }

  /** The cross product of two orthogonal unit vectors is a unit vector
      orthogonal to both. */
  lemma CrossOfOrthonormal(w: Vec3, u: Vec3)
    requires IsUnit(w) && IsUnit(u) && Dot(u, w) == 0.0
    ensures IsUnit(Cross(w, u)) && Dot(u, Cross(w, u)) == 0.0 && Dot(Cross(w, u), w) == 0.0
  {
    Lagrange(w, u);
    CrossOrthogonal(w, u);
  }

  /** The span of a window of the given half extents: 2x along u and 2y along v
      are orthogonal and have lengths 2x and 2y. */
  lemma FocusWindowSize(sqrt: real -> real, lookfrom: Vec3, lookat: Vec3, vup: Vec3,
                        halfHeight: real, aspect: real, aperture: real, focusDist: real)
    requires IsSqrt(sqrt)
    requires lookfrom != lookat
    requires !IsZero(Cross(vup, UnitVector(sqrt, Sub(lookfrom, lookat))))
    ensures var c := MakeCamera(sqrt, lookfrom, lookat, vup, halfHeight, aspect, aperture, focusDist);
      Dot(c.horizontal, c.horizontal) == Sq(2.0 * (aspect * halfHeight * focusDist)) &&
      Dot(c.vertical, c.vertical) == Sq(2.0 * (halfHeight * focusDist)) &&
      Dot(c.horizontal, c.vertical) == 0.0
  {
    var c := MakeCamera(sqrt, lookfrom, lookat, vup, halfHeight, aspect, aperture, focusDist);
    MakeCameraOrthonormal(sqrt, lookfrom, lookat, vup, halfHeight, aspect, aperture, focusDist);
    DotScale(2.0 * (aspect * halfHeight * focusDist), c.u);
    DotScale(2.0 * (halfHeight * focusDist), c.v);
    OrthogonalScaled(2.0 * (aspect * halfHeight * focusDist), c.u, 2.0 * (halfHeight * focusDist), c.v);
  }

  lemma OrthogonalScaled(k: real, a: Vec3, l: real, b: Vec3)
    requires Dot(a, b) == 0.0
    ensures Dot(Scale(k, a), Scale(l, b)) == 0.0
  {
    DotScaleRight(Scale(k, a), l, b);
    assert Dot(Scale(k, a), b) == Mult(k, Dot(a, b));
  }

  /** `get_ray`: the lens draw `disk` (a point of the unit disk, from
      `random_in_unit_disk`) is scaled by the lens radius and laid along u and
      v to give the ray's origin; the ray is aimed at the window point (s, t).
      Whatever the draw, the ray reaches that window point at parameter 1, and
      a pinhole camera (lens radius 0) shoots every ray from its origin. */
  function GetRay(c: Camera, s: real, t: real, disk: Vec2): (r: Ray)
    ensures PointAt(r, 1.0) == WindowPoint(c, s, t)
    ensures c.lensRadius == 0.0 ==> r.origin == c.origin
  {
    var rd := Vec2(c.lensRadius * disk.x, c.lensRadius * disk.y);
    var offset := Add(Scale(rd.x, c.u), Scale(rd.y, c.v));
    var rayOrigin := Add(c.origin, offset);
    Ray(rayOrigin, Sub(WindowPoint(c, s, t), rayOrigin))
  }

  /** The ray starts in the lens plane, orthogonal to w, at distance at most
      the lens radius from the camera's origin (strictly less for a draw inside
      the unit disk and a lens of non-zero radius). */
  lemma RayStartsOnLens(c: Camera, s: real, t: real, disk: Vec2)
    requires Orthonormal(c)
    ensures var offset := Sub(GetRay(c, s, t, disk).origin, c.origin);
      Dot(offset, c.w) == 0.0 && Dot(offset, offset) == Mult(Sq(c.lensRadius), Dot2(disk, disk))
    ensures var offset := Sub(GetRay(c, s, t, disk).origin, c.origin);
      InUnitDisk(disk) && c.lensRadius != 0.0 ==> Dot(offset, offset) < Sq(c.lensRadius)
  {
    var p := c.lensRadius * disk.x;
    var q := c.lensRadius * disk.y;
    var offset := Add(Scale(p, c.u), Scale(q, c.v));
    assert Sub(GetRay(c, s, t, disk).origin, c.origin) == offset;
    PlaneCombination(p, c.u, q, c.v, c.w);
    assert Sq(p) + Sq(q) == Mult(Sq(c.lensRadius), Dot2(disk, disk));
    if InUnitDisk(disk) && c.lensRadius != 0.0 {
      SqPositive(c.lensRadius);
      MulPos(Sq(c.lensRadius), 1.0 - Dot2(disk, disk));
      assert Mult(Sq(c.lensRadius), 1.0 - Dot2(disk, disk)) == Sq(c.lensRadius) - Mult(Sq(c.lensRadius), Dot2(disk, disk));
    }
  }

  /** p u + q v, for orthonormal u, v and w, is orthogonal to w and has squared
      length p^2 + q^2. */
  lemma PlaneCombination(p: real, u: Vec3, q: real, v: Vec3, w: Vec3)
    requires IsUnit(u) && IsUnit(v) && Dot(u, v) == 0.0 && Dot(u, w) == 0.0 && Dot(v, w) == 0.0
    ensures Dot(Add(Scale(p, u), Scale(q, v)), w) == 0.0
    ensures Dot(Add(Scale(p, u), Scale(q, v)), Add(Scale(p, u), Scale(q, v))) == Sq(p) + Sq(q)
  {
    var a := Scale(p, u);
    var b := Scale(q, v);
    assert Dot(Add(a, b), w) == Dot(a, w) + Dot(b, w);
    DotScaleRight(w, p, u);
    DotScaleRight(w, q, v);
    assert Dot(Add(a, b), Add(a, b)) == Dot(a, a) + 2.0 * Dot(a, b) + Dot(b, b);
    DotScale(p, u);
    DotScale(q, v);
    OrthogonalScaled(p, u, q, v);
  }

  /** Every ray of a camera with an orthonormal basis travels a distance
      focusDist along -w per unit of parameter: the focus window is a plane at
      depth focusDist, whatever the lens draw and the window coordinates. */
  lemma RayDepth(sqrt: real -> real, lookfrom: Vec3, lookat: Vec3, vup: Vec3,
                 halfHeight: real, aspect: real, aperture: real, focusDist: real,
                 s: real, t: real, disk: Vec2)
    requires IsSqrt(sqrt)
    requires lookfrom != lookat
    requires !IsZero(Cross(vup, UnitVector(sqrt, Sub(lookfrom, lookat))))
    ensures var c := MakeCamera(sqrt, lookfrom, lookat, vup, halfHeight, aspect, aperture, focusDist);
      Dot(GetRay(c, s, t, disk).direction, c.w) == -focusDist
  {
    var c := MakeCamera(sqrt, lookfrom, lookat, vup, halfHeight, aspect, aperture, focusDist);
    MakeCameraOrthonormal(sqrt, lookfrom, lookat, vup, halfHeight, aspect, aperture, focusDist);
    var x := aspect * halfHeight * focusDist;
    var y := halfHeight * focusDist;
    var p := 2.0 * x * s - x - c.lensRadius * disk.x;
    var q := 2.0 * y * t - y - c.lensRadius * disk.y;
    assert c == Frame(aperture / 2.0, lookfrom, c.u, c.v, c.w, x, y, focusDist);
    DirectionInBasis(c, x, y, focusDist, s, t, disk);
    PlaneCombination(p, c.u, q, c.v, c.w);
    DotAddLeft(Add(Scale(p, c.u), Scale(q, c.v)), Scale(-focusDist, c.w), c.w);
    DotScaleRight(c.w, -focusDist, c.w);
    assert Dot(Scale(-focusDist, c.w), c.w) == Dot(c.w, Scale(-focusDist, c.w));
    assert Dot(c.w, c.w) == 1.0;
  }

  /** The direction of a ray of a framed camera, written in its basis. */
  lemma DirectionInBasis(c: Camera, x: real, y: real, f: real, s: real, t: real, disk: Vec2)
    requires c == Frame(c.lensRadius, c.origin, c.u, c.v, c.w, x, y, f)
    ensures GetRay(c, s, t, disk).direction
         == Add(Add(Scale(2.0 * x * s - x - c.lensRadius * disk.x, c.u),
                    Scale(2.0 * y * t - y - c.lensRadius * disk.y, c.v)),
                Scale(-f, c.w))
  {
    var dx := c.lensRadius * disk.x;
    var dy := c.lensRadius * disk.y;
    BasisComponent(c.origin.x, c.u.x, c.v.x, c.w.x, x, y, f, s, t, dx, dy);
    BasisComponent(c.origin.y, c.u.y, c.v.y, c.w.y, x, y, f, s, t, dx, dy);
    BasisComponent(c.origin.z, c.u.z, c.v.z, c.w.z, x, y, f, s, t, dx, dy);
  }

  /** One coordinate of `DirectionInBasis`: window point minus lens point. */
  lemma BasisComponent(o: real, u: real, v: real, w: real, x: real, y: real, f: real,
                       s: real, t: real, dx: real, dy: real)
    ensures (((o - x * u) - y * v) - f * w + s * (2.0 * x * u)) + t * (2.0 * y * v) - (o + (dx * u + dy * v))
         == ((2.0 * x * s - x - dx) * u + (2.0 * y * t - y - dy) * v) + -f * w
  {
  }

  /** A pinhole camera (aperture 0) shoots the ray through the window centre
      from lookfrom straight along -w, with length focusDist. */
  lemma PinholeCentreRay(sqrt: real -> real, lookfrom: Vec3, lookat: Vec3, vup: Vec3,
                         halfHeight: real, aspect: real, focusDist: real, disk: Vec2)
    requires IsSqrt(sqrt)
    ensures var c := MakeCamera(sqrt, lookfrom, lookat, vup, halfHeight, aspect, 0.0, focusDist);
      GetRay(c, 0.5, 0.5, disk) == Ray(lookfrom, Scale(-focusDist, c.w))
  {
    var c := MakeCamera(sqrt, lookfrom, lookat, vup, halfHeight, aspect, 0.0, focusDist);
    PinholeRay(c, 0.5, 0.5, disk);
    assert WindowPoint(c, 0.5, 0.5) == WindowCentre(c);
    BackAlong(lookfrom, focusDist, c.w);
  }

  /** A pinhole camera's ray starts at its origin and points at the window. */
  lemma PinholeRay(c: Camera, s: real, t: real, disk: Vec2)
    requires c.lensRadius == 0.0
    ensures GetRay(c, s, t, disk) == Ray(c.origin, Sub(WindowPoint(c, s, t), c.origin))
  {
  }

  lemma BackAlong(p: Vec3, f: real, w: Vec3)
    ensures Sub(Sub(p, Scale(f, w)), p) == Scale(-f, w)
  {
  }
}
