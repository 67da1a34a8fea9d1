/** What the primitives of the distance-field library compute once the engine's magnitude is
    the Euclidean length: where each field is negative, zero and positive, its value at
    landmark points, and how it reacts to the transforms. */
module ShapeLaws {
  import opened Numerics
  import opened Vectors
  import opened DistanceField

  // ---------------------------------------------------------------------------------------
  // Sphere

  /** A sphere of radius r >= 0 is -r at its centre, never below -r, and negative, zero or
      positive exactly where |p|² is below, at or above r². */
  lemma SphereLaws(e: Engine, p: Vec3, r: real)
    requires IsMagnitude(e.magnitude) && r >= 0.0
    ensures SignedSphere(e, Zero3, r) == -r
    ensures SignedSphere(e, p, r) >= -r
    ensures SignedSphere(e, p, r) < 0.0 <==> SumSq(p) < r * r
    ensures SignedSphere(e, p, r) == 0.0 <==> SumSq(p) == r * r
  {
    MagnitudeOfZero(e.magnitude);
    MagnitudeSquare(e.magnitude, p);
    MagnitudeCompare(e.magnitude, p, r);
  }

  // ---------------------------------------------------------------------------------------
  // Boxes

  /** Abs3 agrees with the scalar absolute value on each component. */
  lemma Abs3Components(v: Vec3)
    ensures Abs3(v) == Vec3(Abs(v.x), Abs(v.y), Abs(v.z))
  {
  }

  /** The point lies in the closed box with half-extents b. */
  ghost predicate InBox(p: Vec3, b: Vec3)
  {
    Abs(p.x) <= b.x && Abs(p.y) <= b.y && Abs(p.z) <= b.z
  }

  /** The point lies strictly inside the box with half-extents b. */
  ghost predicate StrictlyInBox(p: Vec3, b: Vec3)
  {
    Abs(p.x) < b.x && Abs(p.y) < b.y && Abs(p.z) < b.z
  }

  /** A box excess is zero exactly when the point lies in the box. */
  lemma BoxExcessZero(p: Vec3, b: Vec3)
    ensures BoxExcess(p, b) == Zero3 <==> InBox(p, b)
  {
    Abs3Components(p);
  }

  /** The unsigned box is never negative and it is zero exactly on the closed box. */
  lemma UnsignedBoxLaws(e: Engine, p: Vec3, b: Vec3)
    requires IsMagnitude(e.magnitude)
    ensures UnsignedBox(e, p, b) >= 0.0
    ensures UnsignedBox(e, p, b) == 0.0 <==> InBox(p, b)
  {
    BoxExcessZero(p, b);
    MagnitudeOfZero(e.magnitude);
    MagnitudeSquare(e.magnitude, BoxExcess(p, b));
    if UnsignedBox(e, p, b) == 0.0 {
      MagnitudeDefinite(e.magnitude, BoxExcess(p, b));
    }
  }

  /** Beyond a face of a box with non-negative half-extents, along an axis, the unsigned box
      is the distance to that face. */
  lemma UnsignedBoxAlongAxis(e: Engine, b: Vec3, t: real)
    requires IsMagnitude(e.magnitude)
    requires b.x >= 0.0 && b.y >= 0.0 && b.z >= 0.0 && t >= 0.0
    ensures UnsignedBox(e, Vec3(b.x + t, 0.0, 0.0), b) == t
  {
    assert BoxExcess(Vec3(b.x + t, 0.0, 0.0), b) == Vec3(t, 0.0, 0.0);
    MagnitudeAxis(e.magnitude, t);
  }

  /** The rounded box is the unsigned box moved out by the border radius: it is never below
      -borderRadius and reaches it exactly on the closed box. */
  lemma UnsignedRoundBoxLaws(e: Engine, p: Vec3, b: Vec3, borderRadius: real)
    requires IsMagnitude(e.magnitude)
    ensures UnsignedRoundBox(e, p, b, borderRadius) == UnsignedBox(e, p, b) - borderRadius
    ensures UnsignedRoundBox(e, p, b, borderRadius) >= -borderRadius
    ensures UnsignedRoundBox(e, p, b, borderRadius) == -borderRadius <==> InBox(p, b)
  {
    UnsignedBoxLaws(e, p, b);
  }

  /** Inside the closed box the signed box is the largest of the three (non-positive) face
      offsets; outside it is the unsigned box, which is then positive. */
  lemma SignedBoxCases(e: Engine, p: Vec3, b: Vec3)
    requires IsMagnitude(e.magnitude)
    ensures var d := Sub(Abs3(p), b);
      InBox(p, b) ==> SignedBox(e, p, b) == Max(d.x, Max(d.y, d.z)) <= 0.0
    ensures !InBox(p, b) ==> SignedBox(e, p, b) == UnsignedBox(e, p, b) > 0.0
  {
    var d := Sub(Abs3(p), b);
    assert Max3(d, Zero3) == BoxExcess(p, b);
    UnsignedBoxLaws(e, p, b);
    BoxExcessZero(p, b);
    Abs3Components(p);
  }

  /** The signed box is negative exactly strictly inside the box and non-positive exactly on
      the closed box. */
  lemma SignedBoxSign(e: Engine, p: Vec3, b: Vec3)
    requires IsMagnitude(e.magnitude)
    ensures SignedBox(e, p, b) <= 0.0 <==> InBox(p, b)
    ensures SignedBox(e, p, b) < 0.0 <==> StrictlyInBox(p, b)
  {
    SignedBoxCases(e, p, b);
    Abs3Components(p);
  }

  // ---------------------------------------------------------------------------------------
  // Torus, cylinder, cone and plane

  /** Vector2.magnitude of (x, y) compared with a non-negative bound, by squares. */
  lemma Magnitude2Compare(e: Engine, v: Vec2, r: real)
    requires IsMagnitude(e.magnitude) && r >= 0.0
    ensures Magnitude2(e, v) < r <==> v.x * v.x + v.y * v.y < r * r
    ensures Magnitude2(e, v) == r <==> v.x * v.x + v.y * v.y == r * r
  {
    var w := Vec3(v.x, v.y, 0.0);
    assert SumSq(w) == v.x * v.x + v.y * v.y;
    MagnitudeCompare(e.magnitude, w, r);
  }

  /** Two planar vectors with the same sum of squares have the same Vector2.magnitude. */
  lemma Magnitude2BySquares(e: Engine, u: Vec2, v: Vec2)
    requires IsMagnitude(e.magnitude)
    requires u.x * u.x + u.y * u.y == v.x * v.x + v.y * v.y
    ensures Magnitude2(e, u) == Magnitude2(e, v)
  {
    var a, b := Vec3(u.x, u.y, 0.0), Vec3(v.x, v.y, 0.0);
    assert SumSq(a) == u.x * u.x + u.y * u.y;
    assert SumSq(b) == v.x * v.x + v.y * v.y;
    MagnitudeBySquares(e.magnitude, a, b);
  }

  /** On its core circle (height 0, distance innerRadius from the vertical axis) the torus
      reaches its minimum, -outerRadius. */
  lemma TorusOnCoreCircle(e: Engine, p: Vec3, innerRadius: real, outerRadius: real)
    requires IsMagnitude(e.magnitude) && innerRadius >= 0.0
    requires p.y == 0.0 && p.x * p.x + p.z * p.z == innerRadius * innerRadius
    ensures SignedTorus(e, p, innerRadius, outerRadius) == -outerRadius
  {
    Magnitude2Compare(e, Vec2(p.x, p.z), innerRadius);
    MagnitudeOfZero(e.magnitude);
  }

  /** The torus is negative exactly where the distance to its core circle, squared, is below
      outerRadius². */
  lemma TorusSign(e: Engine, p: Vec3, innerRadius: real, outerRadius: real)
    requires IsMagnitude(e.magnitude) && outerRadius >= 0.0
    ensures var a := Magnitude2(e, Vec2(p.x, p.z)) - innerRadius;
      SignedTorus(e, p, innerRadius, outerRadius) < 0.0 <==>
        a * a + p.y * p.y < outerRadius * outerRadius
  {
    var a := Magnitude2(e, Vec2(p.x, p.z)) - innerRadius;
    Magnitude2Compare(e, Vec2(a, p.y), outerRadius);
  }

  /** The torus is symmetric about its vertical axis, so a twist does not change it. */
  lemma TorusTwistInvariant(e: Engine, p: Vec3, strength: real, innerRadius: real, outerRadius: real)
    requires IsMagnitude(e.magnitude) && IsTrigonometry(e)
    ensures SignedTorus(e, Twist(e, p, strength), innerRadius, outerRadius)
         == SignedTorus(e, p, innerRadius, outerRadius)
  {
    var q := Twist(e, p, strength);
    TwistKeepsAxisDistance(e, p, strength);
    Magnitude2BySquares(e, Vec2(q.x, q.z), Vec2(p.x, p.z));
  }

  /** The infinite cylinder does not depend on the height, is -c.z on its axis, and is
      negative exactly within distance c.z of the axis through (c.x, *, c.y). */
  lemma CylinderLaws(e: Engine, p: Vec3, c: Vec3, h: real)
    requires IsMagnitude(e.magnitude) && c.z >= 0.0
    ensures SignedCylinder(e, Vec3(p.x, h, p.z), c) == SignedCylinder(e, p, c)
    ensures SignedCylinder(e, Vec3(c.x, h, c.y), c) == -c.z
    ensures SignedCylinder(e, p, c) < 0.0 <==>
      (p.x - c.x) * (p.x - c.x) + (p.z - c.y) * (p.z - c.y) < c.z * c.z
  {
    MagnitudeOfZero(e.magnitude);
    assert Sub2(Vec2(c.x, c.y), Vec2(c.x, c.y)) == Vec2(0.0, 0.0);
    Magnitude2Compare(e, Sub2(Vec2(p.x, p.z), Vec2(c.x, c.y)), c.z);
  }

  /** The cone is a cone: its apex is on the surface and scaling the position by t >= 0 scales
      the value by t. */
  lemma ConeScale(e: Engine, p: Vec3, c: Vec2, t: real)
    requires IsMagnitude(e.magnitude) && t >= 0.0
    ensures SignedCone(e, Zero3, c) == 0.0
    ensures SignedCone(e, Scale(t, p), c) == t * SignedCone(e, p, c)
  {
    MagnitudeOfZero(e.magnitude);
    var x, y, z := p.x, p.y, p.z;
    var w := Vec3(x, y, 0.0);
    assert Vec3(t * x, t * y, 0.0) == Scale(t, w);
    MagnitudeScale(e.magnitude, t, w);
    var q := e.magnitude(w);
    assert Magnitude2(e, Vec2(t * x, t * y)) == t * q;
    assert SignedCone(e, p, c) == c.x * q + c.y * z;
    var sp := Scale(t, p);
    assert sp.x == t * x && sp.y == t * y && sp.z == t * z;
    assert SignedCone(e, sp, c) == c.x * (t * q) + c.y * (t * z);
    assert c.x * (t * q) + c.y * (t * z) == t * (c.x * q + c.y * z);
  }

  /** Moving a distance t along a unit normal changes the plane's value by exactly t, and the
      point -w·n lies on the plane. */
  lemma PlaneAlongNormal(p: Vec3, n: Vec4, t: real)
    requires n.x * n.x + n.y * n.y + n.z * n.z == 1.0
    ensures var u := Vec3(n.x, n.y, n.z);
      SignedPlane(Add(p, Scale(t, u)), n) == SignedPlane(p, n) + t
    ensures SignedPlane(Scale(-n.w, Vec3(n.x, n.y, n.z)), n) == 0.0
  {
    var u := Vec3(n.x, n.y, n.z);
    assert Dot3(Add(p, Scale(t, u)), u) == Dot3(p, u) + t * (n.x * n.x + n.y * n.y + n.z * n.z);
    assert Dot3(Scale(-n.w, u), u) == -n.w * (n.x * n.x + n.y * n.y + n.z * n.z);
  }

  // ---------------------------------------------------------------------------------------
  // Prisms

  /** The hexagonal prism is symmetric under reflection in each coordinate plane. */
  lemma HexagonalPrismSymmetric(p: Vec3, h: Vec2)
    ensures SignedHexagonalPrism(Vec3(-p.x, p.y, p.z), h) == SignedHexagonalPrism(p, h)
    ensures SignedHexagonalPrism(Vec3(p.x, -p.y, p.z), h) == SignedHexagonalPrism(p, h)
    ensures SignedHexagonalPrism(Vec3(p.x, p.y, -p.z), h) == SignedHexagonalPrism(p, h)
  {
    AbsLaws(p, Vec2(0.0, 0.0));
    assert Abs3(Vec3(-p.x, p.y, p.z)) == Abs3(p);
    assert Abs3(Vec3(p.x, -p.y, p.z)) == Abs3(p);
    assert Abs3(Vec3(p.x, p.y, -p.z)) == Abs3(p);
  }

  /** The triangular prism is symmetric in x but not in y: with h = (2, 1), the point
      (0, 1.5, 0) is inside and its mirror (0, -1.5, 0) outside. */
  lemma TriangularPrismNotSymmetricInY()
    ensures SignedTriangularPrism(Vec3(0.0, 1.5, 0.0), Vec2(2.0, 1.0)) == -0.25
    ensures SignedTriangularPrism(Vec3(0.0, -1.5, 0.0), Vec2(2.0, 1.0)) == 0.5
  {
  }

  /** Reflecting x does not change the triangular prism. */
  lemma TriangularPrismSymmetricInX(p: Vec3, h: Vec2)
    ensures SignedTriangularPrism(Vec3(-p.x, p.y, p.z), h) == SignedTriangularPrism(p, h)
  {
    assert Abs3(Vec3(-p.x, p.y, p.z)) == Abs3(p);
  }

  // ---------------------------------------------------------------------------------------
  // Capped cylinder

  /** Off the corner region (where the point lies beyond neither the radius nor the
      half-height, or beyond only one of them) the capped cylinder as written equals the
      intended formula. */
  lemma CappedCylinderAgreesOffCorner(e: Engine, p: Vec3, h: Vec2)
    requires IsMagnitude(e.magnitude)
    requires var d := CappedCylinderOffset(e, p, h); d.x <= 0.0 || d.y <= 0.0
    ensures SignedCappedCylinderAsWritten(e, p, h) == SignedCappedCylinderIntended(e, p, h)
  {
    var d := CappedCylinderOffset(e, p, h);
    var m := Max2(d, Zero2);
    if d.x <= 0.0 && d.y <= 0.0 {
      assert Vec3(m.x, m.y, 0.0) == Zero3;
      MagnitudeOfZero(e.magnitude);
    } else if d.x <= 0.0 {
      assert Vec3(m.x, m.y, 0.0) == Vec3(0.0, d.y, 0.0);
      MagnitudeAxis(e.magnitude, d.y);
    } else {
      assert Vec3(m.x, m.y, 0.0) == Vec3(d.x, 0.0, 0.0);
      MagnitudeAxis(e.magnitude, d.x);
    }
  }

  /** In the corner region (beyond both the radius and the half-height) the code as written
      returns max(d.x, d.y), which is strictly less than the intended length(d). */
  lemma CappedCylinderCorner(e: Engine, p: Vec3, h: Vec2)
    requires IsMagnitude(e.magnitude)
    requires var d := CappedCylinderOffset(e, p, h); d.x > 0.0 && d.y > 0.0
    ensures var d := CappedCylinderOffset(e, p, h);
      && SignedCappedCylinderAsWritten(e, p, h) == Max(d.x, d.y)
      && SignedCappedCylinderIntended(e, p, h) == Magnitude2(e, d)
      && 0.0 < SignedCappedCylinderAsWritten(e, p, h) < SignedCappedCylinderIntended(e, p, h)
  {
    var d := CappedCylinderOffset(e, p, h);
    assert Max2(d, Zero2) == d;
    Magnitude2ExceedsComponents(e, d);
  }

  /** A planar vector with two positive components is longer than either of them. */
  lemma Magnitude2ExceedsComponents(e: Engine, d: Vec2)
    requires IsMagnitude(e.magnitude) && d.x > 0.0 && d.y > 0.0
    ensures Magnitude2(e, d) > d.x && Magnitude2(e, d) > d.y
  {
    Magnitude2ExceedsX(e, d);
    Magnitude2ExceedsY(e, d);
  }

  /** Magnitude2ExceedsComponents for the first component. */
  lemma Magnitude2ExceedsX(e: Engine, d: Vec2)
    requires IsMagnitude(e.magnitude) && d.x > 0.0 && d.y > 0.0
    ensures Magnitude2(e, d) > d.x
  {
    SquarePositive(d.y);
    Magnitude2Compare(e, d, d.x);
  }

  /** Magnitude2ExceedsComponents for the second component. */
  lemma Magnitude2ExceedsY(e: Engine, d: Vec2)
    requires IsMagnitude(e.magnitude) && d.x > 0.0 && d.y > 0.0
    ensures Magnitude2(e, d) > d.y
  {
    SquarePositive(d.x);
    Magnitude2Compare(e, d, d.y);
  }

  /** The as-written capped cylinder and the intended one agree in sign everywhere, so the
      surface they describe (the zero set) and the solid (the negative set) are the same. */
  lemma CappedCylinderSameSign(e: Engine, p: Vec3, h: Vec2)
    requires IsMagnitude(e.magnitude)
    ensures Sign(SignedCappedCylinderAsWritten(e, p, h)) == Sign(SignedCappedCylinderIntended(e, p, h))
  {
    var d := CappedCylinderOffset(e, p, h);
    if d.x > 0.0 && d.y > 0.0 {
      CappedCylinderCorner(e, p, h);
    } else {
      CappedCylinderAgreesOffCorner(e, p, h);
    }
  }

  /** The corrected capped cylinder is the larger offset max(d.x, d.y) inside, where both
      offsets are non-positive, and the positive length of max(d, 0) everywhere else. */
  lemma CappedCylinderCases(e: Engine, p: Vec3, h: Vec2)
    requires IsMagnitude(e.magnitude)
    ensures var d := CappedCylinderOffset(e, p, h);
      d.x <= 0.0 && d.y <= 0.0 ==> SignedCappedCylinderIntended(e, p, h) == Max(d.x, d.y)
    ensures var d := CappedCylinderOffset(e, p, h);
      !(d.x <= 0.0 && d.y <= 0.0) ==>
        SignedCappedCylinderIntended(e, p, h) == Magnitude2(e, Max2(d, Zero2)) > 0.0
  {
    var d := CappedCylinderOffset(e, p, h);
    var m := Max2(d, Zero2);
    var w := Vec3(m.x, m.y, 0.0);
    MagnitudeOfZero(e.magnitude);
    MagnitudeSquare(e.magnitude, w);
    if d.x <= 0.0 && d.y <= 0.0 {
      assert w == Zero3;
    } else if e.magnitude(w) == 0.0 {
      MagnitudeDefinite(e.magnitude, w);
      assert false;
    }
  }

  /** The corrected capped cylinder is non-positive exactly within the radius and the
      half-height, and negative exactly strictly within both. */
  lemma CappedCylinderInside(e: Engine, p: Vec3, h: Vec2)
    requires IsMagnitude(e.magnitude)
    ensures var d := CappedCylinderOffset(e, p, h);
      SignedCappedCylinderIntended(e, p, h) <= 0.0 <==> d.x <= 0.0 && d.y <= 0.0
    ensures var d := CappedCylinderOffset(e, p, h);
      SignedCappedCylinderIntended(e, p, h) < 0.0 <==> d.x < 0.0 && d.y < 0.0
  {
    CappedCylinderCases(e, p, h);
  }

  /** A concrete point where the as-written and the intended capped cylinder differ: with
      h = (2, 3) at p = (5, 7, 0) the offset is d = (3, 4); the code gives 4 where the
      formula gives length(3, 4) = 5. */
  lemma CappedCylinderCounterexample(e: Engine)
    requires IsMagnitude(e.magnitude)
    ensures CappedCylinderOffset(e, Vec3(5.0, 7.0, 0.0), Vec2(2.0, 3.0)) == Vec2(3.0, 4.0)
    ensures SignedCappedCylinderAsWritten(e, Vec3(5.0, 7.0, 0.0), Vec2(2.0, 3.0)) == 4.0
    ensures SignedCappedCylinderIntended(e, Vec3(5.0, 7.0, 0.0), Vec2(2.0, 3.0)) == 5.0
  {
    MagnitudeAxis(e.magnitude, 5.0);
    assert Magnitude2(e, Vec2(5.0, 0.0)) == 5.0;
    MagnitudeCompare(e.magnitude, Vec3(3.0, 4.0, 0.0), 5.0);
    assert Magnitude2(e, Vec2(3.0, 4.0)) == 5.0;
  }

  // ---------------------------------------------------------------------------------------
  // Ellipsoid

  /** For positive radii the ellipsoid is negative, zero or positive exactly where
      (x/r.x)² + (y/r.y)² + (z/r.z)² is below, at or above 1. */
  lemma EllipsoidSign(e: Engine, p: Vec3, r: Vec3)
    requires IsMagnitude(e.magnitude) && r.x > 0.0 && r.y > 0.0 && r.z > 0.0
    ensures SignedEllipsoid(e, p, r) < 0.0 <==> SumSq(Divide(p, r)) < 1.0
    ensures SignedEllipsoid(e, p, r) == 0.0 <==> SumSq(Divide(p, r)) == 1.0
  {
    var k := Min(Min(r.x, r.y), r.z);
    var a := e.magnitude(Divide(p, r)) - 1.0;
    assert k > 0.0;
    MagnitudeCompare(e.magnitude, Divide(p, r), 1.0);
    EllipsoidFactorSign(a, k);
  }

  /** A product with a positive factor has the sign of the other factor. */
  lemma EllipsoidFactorSign(a: real, k: real)
    requires k > 0.0
    ensures a * k < 0.0 <==> a < 0.0
    ensures a * k == 0.0 <==> a == 0.0
  {
    if a < 0.0 {
      ProductSign(-a, k);
      assert a * k == -((-a) * k);
    } else {
      ProductSign(a, k);
    }
  }

  /** An ellipsoid with three equal positive radii is the sphere of that radius. */
  lemma EllipsoidWithEqualRadiiIsSphere(e: Engine, p: Vec3, s: real)
    requires IsMagnitude(e.magnitude) && s > 0.0
    ensures SignedEllipsoid(e, p, Vec3(s, s, s)) == SignedSphere(e, p, s)
  {
    var t := 1.0 / s;
    assert Divide(p, Vec3(s, s, s)) == Scale(t, p);
    MagnitudeScale(e.magnitude, t, p);
    var m := e.magnitude(p);
    assert (t * m - 1.0) * s == m * (t * s) - s;
    assert t * s == 1.0;
  }
}
