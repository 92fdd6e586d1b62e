/** The hit record of engine/hit_record.py: where a ray met a surface, the unit
    surface normal there, and the material of that surface. The record is
    generic in the material type so that it does not depend on the material
    module (which itself takes records). */
module HitRecords {
  import opened Vectors

  datatype HitRecord<M> = HitRecord(point: Vec3, normal: Vec3, material: M)

  /** The constructor: it refuses a normal that is not of unit length and
      otherwise stores its three arguments unchanged. */
  function NewHitRecord<M>(point: Vec3, normal: Vec3, material: M): (r: HitRecord<M>)
    requires IsUnit(normal)
    ensures r.point == point && r.normal == normal && r.material == material
    ensures IsUnit(r.normal)
  {
    HitRecord(point, normal, material)
  }
}
