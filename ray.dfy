/** The light ray of engine/ray.py: an origin and a direction that need not be
    normalised. */
module Rays {
  import opened Vectors

  datatype Ray = Ray(origin: Vec3, direction: Vec3)

  /** `point_at_parameter`: the point reached after travelling t along the
      direction. */
  function PointAt(ray: Ray, t: real): (p: Vec3)
    ensures t == 0.0 ==> p == ray.origin
    ensures Sub(p, ray.origin) == Scale(t, ray.direction)
  {
    Add(ray.origin, Scale(t, ray.direction))
  }

  /** Moving along a ray is affine: going from t1 to t1 + t2 is a step of t2
      directions, whatever t1 is. */
  lemma PointAtStep(ray: Ray, t1: real, t2: real)
    ensures Sub(PointAt(ray, t1 + t2), PointAt(ray, t1)) == Scale(t2, ray.direction)
  {
  }
}
