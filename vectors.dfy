/** Unity's Vector2, Vector3 and Vector4 over exact reals, their component-wise operators,
    and the engine routines the distance-field code calls but does not define: the Euclidean
    magnitude (a square root), the trigonometry behind Quaternion.Euler and the inverse
    behind Matrix4x4.Inverse. */
module Vectors {
  import opened Numerics

  datatype Vec2 = Vec2(x: real, y: real)
  datatype Vec3 = Vec3(x: real, y: real, z: real)
  datatype Vec4 = Vec4(x: real, y: real, z: real, w: real)

  /** A placement matrix as Matrix4x4.TRS builds it: a translation, a rotation given by
      Euler angles in degrees (Quaternion.Euler), and a scale. */
  datatype Placement = Trs(translation: Vec3, eulerDegrees: Vec3, scale: Vec3)

  /** The engine's numeric routines, which the model takes as given rather than defines:
      `magnitude` is Vector3.magnitude, `cosDeg` and `sinDeg` the cosine and sine of an angle
      in degrees, `inverseTimes(m, p)` is `Matrix4x4.Inverse(m) * p`. */
  datatype Engine = Engine(
    magnitude: Vec3 -> real,
    cosDeg: real -> real,
    sinDeg: real -> real,
    inverseTimes: (Placement, Vec3) -> Vec3)

  const Zero2 := Vec2(0.0, 0.0)
  const Zero3 := Vec3(0.0, 0.0, 0.0)
  const One3 := Vec3(1.0, 1.0, 1.0)

  function Add(a: Vec3, b: Vec3): Vec3 { Vec3(a.x + b.x, a.y + b.y, a.z + b.z) }
  function Sub(a: Vec3, b: Vec3): Vec3 { Vec3(a.x - b.x, a.y - b.y, a.z - b.z) }
  function Neg(a: Vec3): Vec3 { Vec3(-a.x, -a.y, -a.z) }
  function Scale(k: real, a: Vec3): Vec3 { Vec3(k * a.x, k * a.y, k * a.z) }
  function Dot3(a: Vec3, b: Vec3): real { a.x * b.x + a.y * b.y + a.z * b.z }
  /** Vector3.Max: the component-wise Mathf.Max. */
  function Max3(a: Vec3, b: Vec3): Vec3 { Vec3(Max(a.x, b.x), Max(a.y, b.y), Max(a.z, b.z)) }

  function Sub2(a: Vec2, b: Vec2): Vec2 { Vec2(a.x - b.x, a.y - b.y) }
  function Dot2(a: Vec2, b: Vec2): real { a.x * b.x + a.y * b.y }
  /** Vector2.Max: the component-wise Mathf.Max. */
  function Max2(a: Vec2, b: Vec2): Vec2 { Vec2(Max(a.x, b.x), Max(a.y, b.y)) }

  /** The squared Euclidean length x² + y² + z². */
  function SumSq(v: Vec3): real { v.x * v.x + v.y * v.y + v.z * v.z }

  /** The one property the model asks of the engine's magnitude: it is the non-negative square
      root of the sum of squares. Exactly one function has this property. */
  ghost predicate IsMagnitude(magnitude: Vec3 -> real)
  {
    forall v :: MagnitudeAt(magnitude, v)
  }

  /** The magnitude of one vector is the non-negative square root of its sum of squares. */
  ghost predicate MagnitudeAt(magnitude: Vec3 -> real, v: Vec3)
  {
    magnitude(v) >= 0.0 && magnitude(v) * magnitude(v) == SumSq(v)
  }

  /** The defining facts of the magnitude at one vector. */
  lemma MagnitudeSquare(magnitude: Vec3 -> real, v: Vec3)
    requires IsMagnitude(magnitude)
    ensures magnitude(v) >= 0.0 && magnitude(v) * magnitude(v) == SumSq(v)
  {
    assert MagnitudeAt(magnitude, v);
  }

  /** Vector2.magnitude: the length of (x, y), which is the length of (x, y, 0). */
  function Magnitude2(e: Engine, v: Vec2): real
  {
    e.magnitude(Vec3(v.x, v.y, 0.0))
  }

  /** Vector2.normalized: the vector divided by its magnitude, or the zero vector when the
      magnitude is not above Unity's epsilon 1e-5. */
  function Normalized2(e: Engine, v: Vec2): Vec2
  {
    var m := Magnitude2(e, v);
    if m > 0.00001 then Vec2(v.x / m, v.y / m) else Zero2
  }

  /** The cosine and sine are those of a rotation: zero turns nothing, and cos² + sin² = 1. */
  ghost predicate IsTrigonometry(e: Engine)
  {
    && e.cosDeg(0.0) == 1.0
    && e.sinDeg(0.0) == 0.0
    && forall a :: e.cosDeg(a) * e.cosDeg(a) + e.sinDeg(a) * e.sinDeg(a) == 1.0
  }

  /** The product of non-negative reals is non-negative, and positive when both are. */
  lemma ProductSign(x: real, y: real)
    requires x >= 0.0 && y >= 0.0
    ensures x * y >= 0.0
    ensures x > 0.0 && y > 0.0 ==> x * y > 0.0
  {
  }

  /** Squaring is strictly monotone on non-negative reals. */
  lemma SquareLess(a: real, b: real)
    requires a >= 0.0 && b >= 0.0
    ensures a < b <==> a * a < b * b
  {
    assert b * b - a * a == (b - a) * (b + a);
    if a < b {
      ProductSign(b - a, b + a);
    } else {
      ProductSign(a - b, b + a);
      assert a * a - b * b == (a - b) * (b + a);
    }
  }

  /** A square is non-negative, and positive unless its root is zero. */
  lemma SquarePositive(x: real)
    ensures x * x >= 0.0
    ensures x != 0.0 ==> x * x > 0.0
  {
    if x < 0.0 {
      assert x * x == (-x) * (-x);
    }
  }

  /** A non-negative square root is unique. */
  lemma SquareRootUnique(a: real, b: real)
    requires a >= 0.0 && b >= 0.0 && a * a == b * b
    ensures a == b
  {
    SquareLess(a, b);
    SquareLess(b, a);
  }

  /** Comparing a magnitude with a non-negative bound is comparing squares. */
  lemma MagnitudeCompare(magnitude: Vec3 -> real, v: Vec3, r: real)
    requires IsMagnitude(magnitude) && r >= 0.0
    ensures magnitude(v) < r <==> SumSq(v) < r * r
    ensures magnitude(v) == r <==> SumSq(v) == r * r
    ensures magnitude(v) <= r <==> SumSq(v) <= r * r
  {
    var m := magnitude(v);
    MagnitudeSquare(magnitude, v);
    SquareLess(m, r);
    if SumSq(v) == r * r {
      SquareRootUnique(m, r);
    }
  }

  /** Vectors with the same sum of squares have the same magnitude, and a smaller sum of
      squares gives a smaller magnitude. */
  lemma MagnitudeBySquares(magnitude: Vec3 -> real, u: Vec3, v: Vec3)
    requires IsMagnitude(magnitude)
    ensures SumSq(u) == SumSq(v) ==> magnitude(u) == magnitude(v)
    ensures SumSq(u) < SumSq(v) ==> magnitude(u) < magnitude(v)
  {
    MagnitudeSquare(magnitude, u);
    MagnitudeSquare(magnitude, v);
    SquareLess(magnitude(u), magnitude(v));
    if SumSq(u) == SumSq(v) {
      SquareRootUnique(magnitude(u), magnitude(v));
    }
  }

  /** The zero vector has magnitude 0. */
  lemma MagnitudeOfZero(magnitude: Vec3 -> real)
    requires IsMagnitude(magnitude)
    ensures magnitude(Zero3) == 0.0
  {
    var m := magnitude(Zero3);
    MagnitudeSquare(magnitude, Zero3);
    assert m >= 0.0 && m * m == SumSq(Zero3);
    assert SumSq(Zero3) == 0.0 * 0.0;
    SquareRootUnique(m, 0.0);
  }

  /** The zero vector is the only vector of magnitude 0. */
  lemma MagnitudeDefinite(magnitude: Vec3 -> real, v: Vec3)
    requires IsMagnitude(magnitude) && magnitude(v) == 0.0
    ensures v == Zero3
  {
    MagnitudeBoundsComponents(magnitude, v);
  }

  /** An axis-aligned vector's magnitude is the absolute value of its one component. */
  lemma MagnitudeAxis(magnitude: Vec3 -> real, a: real)
    requires IsMagnitude(magnitude)
    ensures magnitude(Vec3(a, 0.0, 0.0)) == Abs(a)
    ensures magnitude(Vec3(0.0, a, 0.0)) == Abs(a)
    ensures magnitude(Vec3(0.0, 0.0, a)) == Abs(a)
  {
    assert Abs(a) * Abs(a) == a * a;
    MagnitudeSquare(magnitude, Vec3(a, 0.0, 0.0));
    MagnitudeSquare(magnitude, Vec3(0.0, a, 0.0));
    MagnitudeSquare(magnitude, Vec3(0.0, 0.0, a));
    SquareRootUnique(magnitude(Vec3(a, 0.0, 0.0)), Abs(a));
    SquareRootUnique(magnitude(Vec3(0.0, a, 0.0)), Abs(a));
    SquareRootUnique(magnitude(Vec3(0.0, 0.0, a)), Abs(a));
  }

  /** No component exceeds the magnitude. */
  lemma MagnitudeBoundsComponents(magnitude: Vec3 -> real, v: Vec3)
    requires IsMagnitude(magnitude)
    ensures Abs(v.x) <= magnitude(v) && Abs(v.y) <= magnitude(v) && Abs(v.z) <= magnitude(v)
  {
    var m := magnitude(v);
    MagnitudeSquare(magnitude, v);
    assert v.x * v.x >= 0.0 && v.y * v.y >= 0.0 && v.z * v.z >= 0.0;
    assert Abs(v.x) * Abs(v.x) == v.x * v.x;
    assert Abs(v.y) * Abs(v.y) == v.y * v.y;
    assert Abs(v.z) * Abs(v.z) == v.z * v.z;
    SquareLess(m, Abs(v.x));
    SquareLess(m, Abs(v.y));
    SquareLess(m, Abs(v.z));
  }

  /** Scaling by t >= 0 scales the magnitude by t. */
  lemma MagnitudeScale(magnitude: Vec3 -> real, t: real, v: Vec3)
    requires IsMagnitude(magnitude) && t >= 0.0
    ensures magnitude(Scale(t, v)) == t * magnitude(v)
  {
    var m := magnitude(v);
    MagnitudeSquare(magnitude, v);
    MagnitudeSquare(magnitude, Scale(t, v));
    assert SumSq(Scale(t, v)) == t * t * SumSq(v);
    assert (t * m) * (t * m) == t * t * (m * m);
    assert t * m >= 0.0;
    SquareRootUnique(magnitude(Scale(t, v)), t * m);
  }
}
