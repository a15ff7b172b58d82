/** The three-dimensional geometry the octree relies on: the parts of Unity's
    Vector3, Bounds and Ray that OctreeNode uses, over the reals instead of
    IEEE single-precision floats. */
module Geometry {

  /** A point or a direction (Unity's Vector3). */
  datatype Vec3 = Vec3(x: real, y: real, z: real)

  function Plus(a: Vec3, b: Vec3): Vec3 {
    Vec3(a.x + b.x, a.y + b.y, a.z + b.z)
  }

  function Minus(a: Vec3, b: Vec3): Vec3 {
    Vec3(a.x - b.x, a.y - b.y, a.z - b.z)
  }

  function Scale(s: real, a: Vec3): Vec3 {
    Vec3(s * a.x, s * a.y, s * a.z)
  }

  /** The vector with the same value on every axis. */
  function Uniform(s: real): Vec3 {
    Vec3(s, s, s)
  }

  function Dot(a: Vec3, b: Vec3): real {
    a.x * b.x + a.y * b.y + a.z * b.z
  }

  function Cross(a: Vec3, b: Vec3): Vec3 {
    Vec3(a.y * b.z - a.z * b.y, a.z * b.x - a.x * b.z, a.x * b.y - a.y * b.x)
  }

  function SqrMagnitude(a: Vec3): real {
    a.x * a.x + a.y * a.y + a.z * a.z
  }

  /** The value in [lo, hi] nearest to v (one axis of Bounds.ClosestPoint). */
  function Clamp(v: real, lo: real, hi: real): real {
    if v < lo then lo else if v > hi then hi else v
  }

  /** An axis-aligned box given by its centre and its full size, as Unity's
      Bounds: the extents are half the size. */
  datatype Bounds = Bounds(center: Vec3, size: Vec3) {

    function Extents(): Vec3 {
      Scale(0.5, size)
    }

    function Min(): Vec3 {
      Minus(center, Extents())
    }

    function Max(): Vec3 {
      Plus(center, Extents())
    }

    /** Inclusive on every face. */
    predicate Contains(p: Vec3) {
      Min().x <= p.x <= Max().x &&
      Min().y <= p.y <= Max().y &&
      Min().z <= p.z <= Max().z
    }

    /** The point of the box nearest to p: p itself when p is inside. */
    function ClosestPoint(p: Vec3): Vec3 {
      Vec3(Clamp(p.x, Min().x, Max().x), Clamp(p.y, Min().y, Max().y), Clamp(p.z, Min().z, Max().z))
    }

    /** Bounds.Expand(amount): the size grows by amount, the centre stays. */
    function Expand(amount: Vec3): Bounds {
      Bounds(center, Plus(size, amount))
    }
  }

  /** The cube of the given side length around a centre. */
  function Cube(center: Vec3, side: real): Bounds {
    Bounds(center, Uniform(side))
  }

  /** A ray: an origin and a direction. */
  datatype Ray = Ray(origin: Vec3, direction: Vec3)

  lemma SquareMonotone(a: real, b: real)
    requires 0.0 <= a <= b
    ensures a * a <= b * b
  {
    assert a * a <= a * b;
    assert a * b <= b * b;
  }

  lemma SquareNonNegative(a: real)
    ensures 0.0 <= a * a
  {
    if a < 0.0 {
      assert a * a == (-a) * (-a);
      SquareMonotone(0.0, -a);
    } else {
      SquareMonotone(0.0, a);
    }
  }

  /** On one axis, the clamped coordinate is no farther from v than any
      coordinate inside [lo, hi]. */
  lemma ClampNoFarther(v: real, lo: real, hi: real, p: real)
    requires lo <= p <= hi
    ensures (Clamp(v, lo, hi) - v) * (Clamp(v, lo, hi) - v) <= (p - v) * (p - v)
  {
    var c := Clamp(v, lo, hi);
    if v < lo {
      SquareMonotone(c - v, p - v);
    } else if v > hi {
      SquareMonotone(v - c, v - p);
      assert (c - v) * (c - v) == (v - c) * (v - c);
      assert (p - v) * (p - v) == (v - p) * (v - p);
    }
  }

  /** The closest point of a box is at least as near to q as every point
      the box contains: a box whose closest point is farther than r from q
      contains no point within r of q. */
  lemma ClosestPointNoFarther(b: Bounds, p: Vec3, q: Vec3)
    requires b.Contains(p)
    ensures SqrMagnitude(Minus(b.ClosestPoint(q), q)) <= SqrMagnitude(Minus(p, q))
  {
    ClampNoFarther(q.x, b.Min().x, b.Max().x, p.x);
    ClampNoFarther(q.y, b.Min().y, b.Max().y, p.y);
    ClampNoFarther(q.z, b.Min().z, b.Max().z, p.z);
  }

  /** A query point inside the box is its own closest point. */
  lemma ClosestPointOfInside(b: Bounds, q: Vec3)
    requires b.Contains(q)
    ensures b.ClosestPoint(q) == q
  {
  }

  /** The distance from a to b is the distance from b to a. */
  lemma SqrMagnitudeSymmetric(a: Vec3, b: Vec3)
    ensures SqrMagnitude(Minus(a, b)) == SqrMagnitude(Minus(b, a))
  {
    assert (a.x - b.x) * (a.x - b.x) == (b.x - a.x) * (b.x - a.x);
    assert (a.y - b.y) * (a.y - b.y) == (b.y - a.y) * (b.y - a.y);
    assert (a.z - b.z) * (a.z - b.z) == (b.z - a.z) * (b.z - a.z);
  }

  /** Lagrange's identity: |d x v|^2 = |d|^2 |v|^2 - (d . v)^2. */
  lemma LagrangeIdentity(d: Vec3, v: Vec3)
    ensures SqrMagnitude(Cross(d, v)) == SqrMagnitude(d) * SqrMagnitude(v) - Dot(d, v) * Dot(d, v)
  {
    var c := Cross(d, v);
    assert c.x * c.x == d.y * d.y * v.z * v.z - 2.0 * d.y * v.z * d.z * v.y + d.z * d.z * v.y * v.y;
    assert c.y * c.y == d.z * d.z * v.x * v.x - 2.0 * d.z * v.x * d.x * v.z + d.x * d.x * v.z * v.z;
    assert c.z * c.z == d.x * d.x * v.y * v.y - 2.0 * d.x * v.y * d.y * v.x + d.y * d.y * v.x * v.x;
  }

  /** The squared distance from v to the point s*d of the line through
      the origin along d. */
  lemma LinePointDistance(d: Vec3, v: Vec3, s: real)
    ensures SqrMagnitude(Minus(v, Scale(s, d))) == SqrMagnitude(v) - 2.0 * s * Dot(d, v) + s * s * SqrMagnitude(d)
  {
    assert (v.x - s * d.x) * (v.x - s * d.x) == v.x * v.x - 2.0 * s * d.x * v.x + s * s * (d.x * d.x);
    assert (v.y - s * d.y) * (v.y - s * d.y) == v.y * v.y - 2.0 * s * d.y * v.y + s * s * (d.y * d.y);
    assert (v.z - s * d.z) * (v.z - s * d.z) == v.z * v.z - 2.0 * s * d.z * v.z + s * s * (d.z * d.z);
  }
}
