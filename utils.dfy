/** The helpers of engine/utils.py: normalisation with its zero-vector case and
    the two rejection samplers. The samplers' random stream is a supplied
    sequence of draws, each draw being what one call of `np.random.rand`
    returns (components in [0, 1)). */
module Utils {
  import opened Vectors

  /** A value of `np.random.rand()`: a real in [0, 1). */
  type Rand = r: real | 0.0 <= r < 1.0

  /** `v / |v|`, or `v` itself when its norm is zero. */
  function UnitVector(sqrt: real -> real, v: Vec3): (r: Vec3)
    requires IsSqrt(sqrt)
    ensures IsZero(v) ==> r == v
    ensures !IsZero(v) ==> IsUnit(r) && Scale(Norm(sqrt, v), r) == v && 0.0 < Norm(sqrt, v)
    ensures InBox(r, -1.0, 1.0)
  {
    var n := Norm(sqrt, v);
    if n > 0.0 then
      UnitVectorIsUnit(v, n);
      UnitInBox(Div(v, n));
      Div(v, n)
    else
      v
  }

  lemma UnitVectorIsUnit(v: Vec3, n: real)
    requires 0.0 < n && Sq(n) == Dot(v, v)
    ensures IsUnit(Div(v, n)) && Scale(n, Div(v, n)) == v
  {
    DivIsScale(v, n);
    DotScale(1.0 / n, v);
    assert Sq(1.0 / n) * Sq(n) == 1.0;
  }

  /** Every component of a unit vector lies in [-1, 1]. */
  lemma UnitInBox(v: Vec3)
    requires IsUnit(v)
    ensures InBox(v, -1.0, 1.0)
  {
    assert Dot(v, v) == Sq(v.x) + Sq(v.y) + Sq(v.z);
    SqPositive(v.x);
    SqPositive(v.y);
    SqPositive(v.z);
    SqBelowOne(v.x);
    SqBelowOne(v.y);
    SqBelowOne(v.z);
  }

  /** The candidate `2 * draw - 1` the disk sampler tests. */
  function DiskCandidate(draw: Vec2): Vec2 {
    Vec2(2.0 * draw.x - 1.0, 2.0 * draw.y - 1.0)
  }

  /** The candidate `2 * draw - 1` the ball sampler tests. */
  function BallCandidate(draw: Vec3): Vec3 {
    Vec3(2.0 * draw.x - 1.0, 2.0 * draw.y - 1.0, 2.0 * draw.z - 1.0)
  }

  predicate InUnitDisk(p: Vec2) {
    Dot2(p, p) < 1.0
  }

  predicate InUnitBall(p: Vec3) {
    Dot(p, p) < 1.0
  }

  /** A draw of `np.random.rand`: every component in [0, 1). */
  predicate IsDraw2(d: Vec2) {
    0.0 <= d.x < 1.0 && 0.0 <= d.y < 1.0
  }

  predicate IsDraw3(d: Vec3) {
    0.0 <= d.x < 1.0 && 0.0 <= d.y < 1.0 && 0.0 <= d.z < 1.0
  }

  /** Rejection sampling in the unit disk: the first candidate strictly inside
      the disk is returned, with the number of draws it discarded. */
  method RandomInUnitDisk(draws: seq<Vec2>) returns (p: Vec2, used: nat)
    requires exists k :: 0 <= k < |draws| && InUnitDisk(DiskCandidate(draws[k]))
    ensures used < |draws| && p == DiskCandidate(draws[used])
    ensures InUnitDisk(p)
    ensures forall k :: 0 <= k < used ==> !InUnitDisk(DiskCandidate(draws[k]))
  {
    var i := 0;
    while true
      invariant 0 <= i < |draws|
      invariant exists k :: i <= k < |draws| && InUnitDisk(DiskCandidate(draws[k]))
      invariant forall k :: 0 <= k < i ==> !InUnitDisk(DiskCandidate(draws[k]))
      decreases |draws| - i
    {
      var candidate := DiskCandidate(draws[i]);
      if Dot2(candidate, candidate) < 1.0 {
        return candidate, i;
      }
      i := i + 1;
    }
  }

  /** Rejection sampling in the unit ball, as `RandomInUnitDisk` with three components. */
  method RandomInUnitSphere(draws: seq<Vec3>) returns (p: Vec3, used: nat)
    requires exists k :: 0 <= k < |draws| && InUnitBall(BallCandidate(draws[k]))
    ensures used < |draws| && p == BallCandidate(draws[used])
    ensures InUnitBall(p)
    ensures forall k :: 0 <= k < used ==> !InUnitBall(BallCandidate(draws[k]))
  {
    var i := 0;
    while true
      invariant 0 <= i < |draws|
      invariant exists k :: i <= k < |draws| && InUnitBall(BallCandidate(draws[k]))
      invariant forall k :: 0 <= k < i ==> !InUnitBall(BallCandidate(draws[k]))
      decreases |draws| - i
    {
      var candidate := BallCandidate(draws[i]);
      if Dot(candidate, candidate) < 1.0 {
        return candidate, i;
      }
      i := i + 1;
    }
  }

  /** Every candidate component `2r - 1` of a draw r in [0, 1) lies in [-1, 1). */
  lemma DiskCandidateInSquare(draw: Vec2)
    requires IsDraw2(draw)
    ensures -1.0 <= DiskCandidate(draw).x < 1.0 && -1.0 <= DiskCandidate(draw).y < 1.0
  {
  }

  lemma BallCandidateInCube(draw: Vec3)
    requires IsDraw3(draw)
    ensures InBox(BallCandidate(draw), -1.0, 1.0)
    ensures BallCandidate(draw).x < 1.0 && BallCandidate(draw).y < 1.0 && BallCandidate(draw).z < 1.0
  {
  }

  /** A point strictly inside the unit ball has every component strictly inside (-1, 1). */
  lemma InUnitBallBounded(p: Vec3)
    requires InUnitBall(p)
    ensures -1.0 < p.x < 1.0 && -1.0 < p.y < 1.0 && -1.0 < p.z < 1.0
  {
    assert Dot(p, p) == Sq(p.x) + Sq(p.y) + Sq(p.z);
    SqPositive(p.x);
    SqPositive(p.y);
    SqPositive(p.z);
    SqBelowOne(p.x);
    SqBelowOne(p.y);
    SqBelowOne(p.z);
  }
}
