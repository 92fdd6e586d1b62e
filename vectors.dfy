/** Three-component real vectors (the numpy arrays of the engine), the few
    two-component vectors the lens sampler produces, and the square root the
    engine takes from numpy.

    Dafny cannot construct a real square root, so every operation that needs one
    receives it as a parameter `sqrt` together with the requirement `IsSqrt(sqrt)`.
    Non-negative square roots are unique, so this does not leave the model open. */
module Vectors {

  datatype Vec3 = Vec3(x: real, y: real, z: real)

  datatype Vec2 = Vec2(x: real, y: real)

  const Zero: Vec3 := Vec3(0.0, 0.0, 0.0)
  const Ones: Vec3 := Vec3(1.0, 1.0, 1.0)

  /** The zero vector, recognised by v.v = 0 (`ZeroComponents` shows that
      every component is then zero, and `DotSelfPositive` the converse). */
  predicate IsZero(v: Vec3) {
    Dot(v, v) == 0.0
  }

  /** The square of a real; kept as a function so that facts about squares
      survive being passed between lemmas. */
  function Sq(a: real): real {
    a * a
  }

  /** The product of two reals, for the same reason. */
  function Mult(a: real, b: real): real {
    a * b
  }

  /** `sqrt` returns the non-negative square root of every non-negative real. */
  ghost predicate IsSqrt(sqrt: real -> real) {
    forall x: real :: 0.0 <= x ==> 0.0 <= sqrt(x) && Sq(sqrt(x)) == x
  }

  function Add(a: Vec3, b: Vec3): Vec3 {
    Vec3(a.x + b.x, a.y + b.y, a.z + b.z)
  }

  function Sub(a: Vec3, b: Vec3): Vec3 {
    Vec3(a.x - b.x, a.y - b.y, a.z - b.z)
  }

  function Neg(a: Vec3): Vec3 {
    Vec3(-a.x, -a.y, -a.z)
  }

  function Scale(k: real, a: Vec3): Vec3 {
    Vec3(k * a.x, k * a.y, k * a.z)
  }

  /** Component-wise division by a scalar, as numpy's `v / n`. */
  function Div(a: Vec3, k: real): Vec3
    requires k != 0.0
  {
    Vec3(a.x / k, a.y / k, a.z / k)
  }

  /** Component-wise product, as numpy's `a * b` on two arrays. */
  function Mul(a: Vec3, b: Vec3): Vec3 {
    Vec3(a.x * b.x, a.y * b.y, a.z * b.z)
  }

  function Dot(a: Vec3, b: Vec3): real {
    a.x * b.x + a.y * b.y + a.z * b.z
  }

  function Cross(a: Vec3, b: Vec3): Vec3 {
    Vec3(a.y * b.z - a.z * b.y, a.z * b.x - a.x * b.z, a.x * b.y - a.y * b.x)
  }

  function Dot2(a: Vec2, b: Vec2): real {
    a.x * b.x + a.y * b.y
  }

  /** Euclidean length, as `np.linalg.norm`: the non-negative root of v.v,
      zero exactly for the zero vector. */
  function Norm(sqrt: real -> real, v: Vec3): (n: real)
    requires IsSqrt(sqrt)
    ensures 0.0 <= n && Sq(n) == Dot(v, v)
    ensures n == 0.0 <==> IsZero(v)
  {
    DotSelfPositive(v);
    SqrtOf(sqrt, Dot(v, v));
    sqrt(Dot(v, v))
  }

  lemma SqrtOf(sqrt: real -> real, x: real)
    requires IsSqrt(sqrt) && 0.0 <= x
    ensures 0.0 <= sqrt(x) && Sq(sqrt(x)) == x
    ensures 0.0 < x <==> 0.0 < sqrt(x)
  {
    assert 0.0 <= sqrt(x) && Sq(sqrt(x)) == x;
    if sqrt(x) == 0.0 {
      assert Sq(sqrt(x)) == 0.0;
    } else {
      SqPositive(sqrt(x));
    }
  }

  /** Unit length, stated without a square root: |v| = 1 exactly when v.v = 1. */
  predicate IsUnit(v: Vec3) {
    Dot(v, v) == 1.0
  }

  /** Every channel lies in [lo, hi]. */
  predicate InBox(v: Vec3, lo: real, hi: real) {
    lo <= v.x <= hi && lo <= v.y <= hi && lo <= v.z <= hi
  }

  /** v.v is a sum of three squares: never negative, and zero only for the zero vector. */
  lemma DotSelfPositive(v: Vec3)
    ensures 0.0 <= Dot(v, v)
    ensures 0.0 < Dot(v, v) <==> !IsZero(v)
  {
    assert Dot(v, v) == Sq(v.x) + Sq(v.y) + Sq(v.z);
    SqPositive(v.x);
    SqPositive(v.y);
    SqPositive(v.z);
  }

  lemma ZeroComponents(v: Vec3)
    ensures IsZero(v) <==> v.x == 0.0 && v.y == 0.0 && v.z == 0.0
  {
    assert Dot(v, v) == Sq(v.x) + Sq(v.y) + Sq(v.z);
    SqPositive(v.x);
    SqPositive(v.y);
    SqPositive(v.z);
    SqNonzero(v.x);
    SqNonzero(v.y);
    SqNonzero(v.z);
  }

  lemma SqNonzero(a: real)
    ensures a != 0.0 ==> 0.0 < Sq(a)
  {
    if a > 0.0 {
      MulPos(a, a);
    } else if a < 0.0 {
      MulPos(-a, -a);
    }
  }

  lemma SqPositive(a: real)
    ensures 0.0 <= Sq(a)
    ensures 0.0 < Sq(a) <==> a != 0.0
  {
    if a < 0.0 {
      MulPos(-a, -a);
      assert Sq(a) == Mult(-a, -a);
    } else if a > 0.0 {
      MulPos(a, a);
      assert Sq(a) == Mult(a, a);
    }
  }

  lemma MulPos(a: real, b: real)
    requires 0.0 < a && 0.0 < b
    ensures 0.0 < Mult(a, b)
  {
  }

  lemma MulNonneg(a: real, b: real)
    requires 0.0 <= a && 0.0 <= b
    ensures 0.0 <= Mult(a, b)
  {
    if a > 0.0 && b > 0.0 {
      MulPos(a, b);
    }
  }

  /** A product is zero only when a factor is. */
  lemma MulZero(a: real, b: real)
    requires Mult(a, b) == 0.0
    ensures a == 0.0 || b == 0.0
  {
    if a != 0.0 && b != 0.0 {
      if a > 0.0 && b > 0.0 {
        MulPos(a, b);
      } else if a > 0.0 {
        MulPos(a, -b);
      } else if b > 0.0 {
        MulPos(-a, b);
      } else {
        MulPos(-a, -b);
      }
    }
  }

  /** Products of non-negative reals are monotone in both factors. */
  lemma MulMonotone(a: real, b: real, c: real, d: real)
    requires 0.0 <= a <= b && 0.0 <= c <= d
    ensures Mult(a, c) <= Mult(b, d)
  {
    MulNonneg(b - a, c);
    MulNonneg(b, d - c);
  }

  /** Lagrange's identity: |a|^2 |b|^2 - (a.b)^2 = |a x b|^2. */
  lemma Lagrange(a: Vec3, b: Vec3)
    ensures Dot(a, a) * Dot(b, b) - Sq(Dot(a, b)) == Dot(Cross(a, b), Cross(a, b))
  {
  }

  /** Cauchy-Schwarz inequality: (a.b)^2 <= |a|^2 |b|^2. */
  lemma CauchySchwarz(a: Vec3, b: Vec3)
    ensures Sq(Dot(a, b)) <= Dot(a, a) * Dot(b, b)
  {
    Lagrange(a, b);
    DotSelfPositive(Cross(a, b));
  }

  /** A real whose square is at most 1 lies in [-1, 1]; below 1, strictly inside. */
  lemma SqBelowOne(d: real)
    ensures Sq(d) <= 1.0 ==> -1.0 <= d <= 1.0
    ensures Sq(d) < 1.0 ==> -1.0 < d < 1.0
    ensures -1.0 <= d <= 1.0 ==> Sq(d) <= 1.0
  {
    if d > 1.0 {
      MulPos(d - 1.0, d + 1.0);
    } else if d < -1.0 {
      MulPos(-d - 1.0, 1.0 - d);
    } else {
      MulNonneg(1.0 - d, 1.0 + d);
    }
  }

  /** The dot product of two unit vectors lies in [-1, 1]. */
  lemma UnitDotBounded(a: Vec3, b: Vec3)
    requires IsUnit(a) && IsUnit(b)
    ensures -1.0 <= Dot(a, b) <= 1.0
  {
    CauchySchwarz(a, b);
    SqBelowOne(Dot(a, b));
  }

  /** The cross product is orthogonal to both factors. */
  lemma CrossOrthogonal(a: Vec3, b: Vec3)
    ensures Dot(a, Cross(a, b)) == 0.0 && Dot(b, Cross(a, b)) == 0.0
  {
  }

  /** The difference of two vectors is zero exactly when they are equal. */
  lemma SubZero(a: Vec3, b: Vec3)
    ensures IsZero(Sub(a, b)) <==> a == b
  {
    ZeroComponents(Sub(a, b));
  }

  /** Non-negative square roots are unique. */
  lemma SqrtUnique(sqrt: real -> real, x: real, s: real)
    requires IsSqrt(sqrt)
    requires 0.0 <= s && Sq(s) == x
    ensures sqrt(x) == s
  {
    SqPositive(s);
    var r := sqrt(x);
    assert 0.0 <= r && Sq(r) == x;
    if r != s {
      MulPos(if r > s then r - s else s - r, r + s);
      assert false;
    }
  }

  /** Scaling a vector by k scales v.v by k^2. */
  lemma DotScale(k: real, a: Vec3)
    ensures Dot(Scale(k, a), Scale(k, a)) == Sq(k) * Dot(a, a)
  {
  }

  /** |a - b|^2 = |a|^2 - 2 a.b + |b|^2. */
  lemma DotSubExpand(a: Vec3, b: Vec3)
    ensures Dot(Sub(a, b), Sub(a, b)) == Dot(a, a) - 2.0 * Dot(a, b) + Dot(b, b)
  {
  }

  /** |a + b|^2 = |a|^2 + 2 a.b + |b|^2. */
  lemma DotAddExpand(a: Vec3, b: Vec3)
    ensures Dot(Add(a, b), Add(a, b)) == Dot(a, a) + 2.0 * Dot(a, b) + Dot(b, b)
  {
  }

  /** The dot product is linear in a scaled argument. */
  lemma DotScaleRight(a: Vec3, k: real, b: Vec3)
    ensures Dot(a, Scale(k, b)) == Mult(k, Dot(a, b))
  {
  }

  /** The dot product distributes over a sum on the left. */
  lemma DotAddLeft(a: Vec3, b: Vec3, w: Vec3)
    ensures Dot(Add(a, b), w) == Dot(a, w) + Dot(b, w)
  {
  }

  /** Dividing by k is scaling by 1/k. */
  lemma DivIsScale(a: Vec3, k: real)
    requires k != 0.0
    ensures Div(a, k) == Scale(1.0 / k, a)
  {
  }
}
