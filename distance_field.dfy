/** The static helpers of the distance-field base class, after Inigo Quilez's distance
    functions: shape primitives, the CSG combinators, and the domain transforms applied to a
    sample position before a primitive is evaluated. Every primitive reads the engine's
    magnitude through `e`; the lemmas say what they compute when that magnitude is the
    Euclidean one (`IsMagnitude(e.magnitude)`). Sign convention: negative inside, zero on the
    surface, positive outside; an unsigned field is never negative. */
module DistanceField {
  import opened Numerics
  import opened Vectors

  // ---------------------------------------------------------------------------------------
  // Component-wise helpers

  /** Abs(Vector2): each component `c > 0 ? c : -c`. */
  function Abs2(v: Vec2): (r: Vec2)
    ensures r.x >= 0.0 && (r.x == v.x || r.x == -v.x)
    ensures r.y >= 0.0 && (r.y == v.y || r.y == -v.y)
  {
    Vec2(if v.x > 0.0 then v.x else -v.x, if v.y > 0.0 then v.y else -v.y)
  }

  /** Abs(Vector3): each component `c > 0 ? c : -c`. */
  function Abs3(v: Vec3): (r: Vec3)
    ensures r.x >= 0.0 && (r.x == v.x || r.x == -v.x)
    ensures r.y >= 0.0 && (r.y == v.y || r.y == -v.y)
    ensures r.z >= 0.0 && (r.z == v.z || r.z == -v.z)
  {
    Vec3(if v.x > 0.0 then v.x else -v.x,
         if v.y > 0.0 then v.y else -v.y,
         if v.z > 0.0 then v.z else -v.z)
  }

  /** Divide: component-wise quotient. C# would give infinity or NaN for a zero component;
      here the divisor's components must be non-zero. */
  function Divide(a: Vec3, b: Vec3): (r: Vec3)
    requires b.x != 0.0 && b.y != 0.0 && b.z != 0.0
    ensures r.x * b.x == a.x && r.y * b.y == a.y && r.z * b.z == a.z
  {
    Vec3(a.x / b.x, a.y / b.y, a.z / b.z)
  }

  /** Mod: the component-wise C# remainder `%`, whose result takes the sign of `a`. */
  function Mod(a: Vec3, b: Vec3): Vec3
    requires b.x != 0.0 && b.y != 0.0 && b.z != 0.0
  {
    Vec3(FRem(a.x, b.x), FRem(a.y, b.y), FRem(a.z, b.z))
  }

  /** Each component of Mod is the truncated remainder of the dividend's component, and no
      other value is. */
  lemma ModIsTruncatedRemainder(a: Vec3, b: Vec3, r: Vec3)
    requires b.x != 0.0 && b.y != 0.0 && b.z != 0.0
    ensures r == Mod(a, b) <==>
      && IsTruncatedRemainder(a.x, b.x, r.x)
      && IsTruncatedRemainder(a.y, b.y, r.y)
      && IsTruncatedRemainder(a.z, b.z, r.z)
  {
    FRemCharacterised(a.x, b.x, r.x);
    FRemCharacterised(a.y, b.y, r.y);
    FRemCharacterised(a.z, b.z, r.z);
  }

  // ---------------------------------------------------------------------------------------
  // Domain transforms

  /** Translate: moves the shape's local origin to `translation`. */
  function Translate(position: Vec3, translation: Vec3): (r: Vec3)
    ensures Add(r, translation) == position
    ensures r == Zero3 <==> position == translation
  {
    Sub(position, translation)
  }

  /** Repeat: folds space into tiles of size `repetition`, `Mod(p, c) - 0.5 * c`. */
  function Repeat(position: Vec3, repetition: Vec3): Vec3
    requires repetition.x != 0.0 && repetition.y != 0.0 && repetition.z != 0.0
  {
    Sub(Mod(position, repetition), Scale(0.5, repetition))
  }

  /** Twist: `Quaternion.Euler(0, p.y * strength, 0) * p`, a rotation about the vertical axis
      by `p.y * strength` degrees, so that the angle grows with the height. */
  function Twist(e: Engine, position: Vec3, strength: real): Vec3
  {
    var angle := position.y * strength;
    var c := e.cosDeg(angle);
    var s := e.sinDeg(angle);
    Vec3(position.x * c + position.z * s, position.y, -position.x * s + position.z * c)
  }

  /** RotateAndTranslate: `Matrix4x4.Inverse(matrix) * position`, left to the engine. */
  function RotateAndTranslate(e: Engine, position: Vec3, matrix: Placement): Vec3
  {
    e.inverseTimes(matrix, position)
  }

  // ---------------------------------------------------------------------------------------
  // Combinators

  /** Union: the nearer surface wins; inside either shape is inside the union. */
  function Union(a: real, b: real): (r: real)
    ensures r <= a && r <= b && (r == a || r == b)
    ensures r < 0.0 <==> a < 0.0 || b < 0.0
  {
    Min(a, b)
  }

  /** Subtraction: removes the shape `a` from the shape `b`; inside the result is inside `b`
      and outside `a`. */
  function Subtraction(a: real, b: real): (r: real)
    ensures r >= -a && r >= b && (r == -a || r == b)
    ensures r < 0.0 <==> a > 0.0 && b < 0.0
  {
    Max(-a, b)
  }

  /** Intersection: inside the result is inside both shapes. */
  function Intersection(a: real, b: real): (r: real)
    ensures r >= a && r >= b && (r == a || r == b)
    ensures r < 0.0 <==> a < 0.0 && b < 0.0
  {
    Max(a, b)
  }

  // ---------------------------------------------------------------------------------------
  // Primitives

  /** SignedSphere: `length(p) - radius`. */
  function SignedSphere(e: Engine, position: Vec3, radius: real): real
  {
    e.magnitude(position) - radius
  }

  /** The excess of |p| over the box half-extents, clamped at zero per component. */
  function BoxExcess(position: Vec3, radius: Vec3): Vec3
  {
    Max3(Sub(Abs3(position), radius), Zero3)
  }

  /** UnsignedBox: `length(max(abs(p) - b, 0))`. */
  function UnsignedBox(e: Engine, position: Vec3, radius: Vec3): real
  {
    e.magnitude(BoxExcess(position, radius))
  }

  /** UnsignedRoundBox: `length(max(abs(p) - b, 0)) - r`. */
  function UnsignedRoundBox(e: Engine, position: Vec3, radius: Vec3, borderRadius: real): real
  {
    e.magnitude(BoxExcess(position, radius)) - borderRadius
  }

  /** SignedBox: with `d = abs(p) - b`, `min(max(d.x, max(d.y, d.z)), 0) + length(max(d, 0))`. */
  function SignedBox(e: Engine, position: Vec3, radius: Vec3): real
  {
    var d := Sub(Abs3(position), radius);
    Min(Max(d.x, Max(d.y, d.z)), 0.0) + e.magnitude(Max3(d, Zero3))
  }

  /** SignedTorus about the vertical axis: with `q = (length(p.xz) - inner, p.y)`,
      `length(q) - outer`. */
  function SignedTorus(e: Engine, position: Vec3, innerRadius: real, outerRadius: real): real
  {
    var q := Vec2(Magnitude2(e, Vec2(position.x, position.z)) - innerRadius, position.y);
    Magnitude2(e, q) - outerRadius
  }

  /** SignedCylinder, infinite along the vertical axis: `length(p.xz - c.xy) - c.z`. */
  function SignedCylinder(e: Engine, position: Vec3, radius: Vec3): real
  {
    Magnitude2(e, Sub2(Vec2(position.x, position.z), Vec2(radius.x, radius.y))) - radius.z
  }

  /** SignedCone along the z axis, for a normalised direction `c`: with `q = length(p.xy)`,
      `dot(c, (q, p.z))`. Unbounded. */
  function SignedCone(e: Engine, position: Vec3, radius: Vec2): real
  {
    var q := Magnitude2(e, Vec2(position.x, position.y));
    Dot2(radius, Vec2(q, position.z))
  }

  /** SignedPlane for a normalised normal `n.xyz` and offset `n.w`: `dot(p, n.xyz) + n.w`. */
  function SignedPlane(position: Vec3, normal: Vec4): real
  {
    Dot3(position, Vec3(normal.x, normal.y, normal.z)) + normal.w
  }

  /** SignedHexagonalPrism: with `q = abs(p)`,
      `max(q.z - h.y, max(q.x * 0.866025 + q.y * 0.5, q.y) - h.x)`. The solid is the
      intersection of the slab |z| <= h.y with a hexagon of apothem h.x in the xy plane. */
  function SignedHexagonalPrism(position: Vec3, radius: Vec2): (r: real)
    ensures r <= 0.0 <==>
      && Abs(position.z) <= radius.y
      && Abs(position.y) <= radius.x
      && Abs(position.x) * 0.866025 + Abs(position.y) * 0.5 <= radius.x
  {
    var q := Abs3(position);
    Max(q.z - radius.y, Max(q.x * 0.866025 + q.y * 0.5, q.y) - radius.x)
  }

  /** SignedTriangularPrism: with `q = abs(p)`,
      `max(q.z - h.y, max(q.x * 0.866025 + p.y * 0.5, -p.y) - h.x * 0.5)`. The solid is the
      slab |z| <= h.y cut by three half-planes; it is symmetric in x but not in y. */
  function SignedTriangularPrism(position: Vec3, radius: Vec2): (r: real)
    ensures r <= 0.0 <==>
      && Abs(position.z) <= radius.y
      && -position.y <= radius.x * 0.5
      && Abs(position.x) * 0.866025 + position.y * 0.5 <= radius.x * 0.5
  {
    var q := Abs3(position);
    Max(q.z - radius.y, Max(q.x * 0.866025 + position.y * 0.5, -position.y) - radius.x * 0.5)
  }

  /** The capped cylinder's `d = abs((length(p.xz), p.y)) - h`: how far the point lies beyond
      the radius `h.x` and beyond the half-height `h.y`. */
  function CappedCylinderOffset(e: Engine, position: Vec3, radius: Vec2): Vec2
  {
    Sub2(Abs2(Vec2(Magnitude2(e, Vec2(position.x, position.z)), position.y)), radius)
  }

  /** The C# SignedCappedCylinder as the code computes it: a misplaced parenthesis adds the zero
      inside the second argument of Min, so the value is `min(max(d.x, d.y), length(max(d, 0)))`.
      The shapes of the demo use the corrected SignedCappedCylinderIntended below instead. */
  function SignedCappedCylinderAsWritten(e: Engine, position: Vec3, radius: Vec2): real
  {
    var d := CappedCylinderOffset(e, position, radius);
    Min(Max(d.x, d.y), 0.0 + Magnitude2(e, Max2(d, Zero2)))
  }

  /** The C# SignedCappedCylinder as its comment states it, and as GenerateValue uses it:
      `min(max(d.x, d.y), 0) + length(max(d, 0))`. Inside, the (negative) offset to the nearer
      of the side and the caps; outside, the length of the positive part of the offset. */
  function SignedCappedCylinderIntended(e: Engine, position: Vec3, radius: Vec2): real
  {
    var d := CappedCylinderOffset(e, position, radius);
    Min(Max(d.x, d.y), 0.0) + Magnitude2(e, Max2(d, Zero2))
  }

  /** SignedEllipsoid: `(length(p / r) - 1) * min(r.x, r.y, r.z)`; an approximation of the
      distance, exact in sign. */
  function SignedEllipsoid(e: Engine, position: Vec3, radius: Vec3): real
    requires radius.x != 0.0 && radius.y != 0.0 && radius.z != 0.0
  {
    (e.magnitude(Divide(position, radius)) - 1.0) * Min(Min(radius.x, radius.y), radius.z)
  }

  // ---------------------------------------------------------------------------------------
  // Laws of the combinators

  /** Union and Intersection are commutative, associative and idempotent. */
  lemma CombinatorLaws(a: real, b: real, c: real)
    ensures Union(a, b) == Union(b, a) && Intersection(a, b) == Intersection(b, a)
    ensures Union(Union(a, b), c) == Union(a, Union(b, c))
    ensures Intersection(Intersection(a, b), c) == Intersection(a, Intersection(b, c))
    ensures Union(a, a) == a && Intersection(a, a) == a
  {
  }

  /** Subtraction is intersection with the complement of its first operand. */
  lemma SubtractionIsIntersectionWithComplement(a: real, b: real)
    ensures Subtraction(a, b) == Intersection(-a, b)
  {
  }

  /** Subtraction is not commutative: the operand order decides which shape is removed. */
  lemma SubtractionNotCommutative()
    ensures Subtraction(-1.0, 2.0) == 2.0
    ensures Subtraction(2.0, -1.0) == -1.0
  {
  }

  // ---------------------------------------------------------------------------------------
  // Laws of the transforms

  /** Translating by t and then by -t returns the position; translating by zero is the
      identity; two translations compose into one by the sum. */
  lemma TranslateLaws(p: Vec3, s: Vec3, t: Vec3)
    ensures Translate(Translate(p, t), Neg(t)) == p
    ensures Translate(p, Zero3) == p
    ensures Translate(Translate(p, s), t) == Translate(p, Add(s, t))
  {
  }

  /** Abs is idempotent and ignores the sign of its argument. */
  lemma AbsLaws(v: Vec3, w: Vec2)
    ensures Abs3(Abs3(v)) == Abs3(v) && Abs3(Neg(v)) == Abs3(v)
    ensures Abs2(Abs2(w)) == Abs2(w) && Abs2(Vec2(-w.x, -w.y)) == Abs2(w)
  {
  }

  /** For non-negative positions and positive periods, Repeat lands in the centred tile
      [-c/2, c/2) on each axis. */
  lemma RepeatCentred(p: Vec3, c: Vec3)
    requires p.x >= 0.0 && p.y >= 0.0 && p.z >= 0.0
    requires c.x > 0.0 && c.y > 0.0 && c.z > 0.0
    ensures var r := Repeat(p, c);
      && -0.5 * c.x <= r.x < 0.5 * c.x
      && -0.5 * c.y <= r.y < 0.5 * c.y
      && -0.5 * c.z <= r.z < 0.5 * c.z
  {
    FRemIsTruncatedRemainder(p.x, c.x);
    FRemIsTruncatedRemainder(p.y, c.y);
    FRemIsTruncatedRemainder(p.z, c.z);
  }

  /** Repeat is periodic for non-negative positions and positive periods: shifting each axis by
      its own whole number of periods does not change the folded position. */
  lemma RepeatPeriodicNonNegative(p: Vec3, c: Vec3, kx: nat, ky: nat, kz: nat)
    requires p.x >= 0.0 && p.y >= 0.0 && p.z >= 0.0
    requires c.x > 0.0 && c.y > 0.0 && c.z > 0.0
    ensures Repeat(Vec3(p.x + kx as real * c.x, p.y + ky as real * c.y, p.z + kz as real * c.z), c)
         == Repeat(p, c)
  {
    var q := Vec3(p.x + kx as real * c.x, p.y + ky as real * c.y, p.z + kz as real * c.z);
    var px, py, pz := p.x, p.y, p.z;
    var qx, qy, qz := q.x, q.y, q.z;
    var cx, cy, cz := c.x, c.y, c.z;
    FRemShiftedNonNegative(px, qx, cx, kx);
    FRemShiftedNonNegative(py, qy, cy, ky);
    FRemShiftedNonNegative(pz, qz, cz, kz);
    assert Mod(q, c) == Vec3(FRem(qx, cx), FRem(qy, cy), FRem(qz, cz));
    assert Mod(q, c) == Mod(p, c);
  }

  /** One axis of Repeat's periodicity: a dividend moved by k periods has the same remainder. */
  lemma FRemShiftedNonNegative(a: real, shifted: real, b: real, k: nat)
    requires a >= 0.0 && b > 0.0 && shifted == a + k as real * b
    ensures FRem(shifted, b) == FRem(a, b)
  {
    FRemPeriodicNonNegative(a, b, k);
  }

  /** Repeat is periodic for non-positive positions and positive periods as well: shifting
      each axis down by its own whole number of periods keeps it on the same side of zero and
      does not change the folded position. */
  lemma RepeatPeriodicNonPositive(p: Vec3, c: Vec3, kx: nat, ky: nat, kz: nat)
    requires p.x <= 0.0 && p.y <= 0.0 && p.z <= 0.0
    requires c.x > 0.0 && c.y > 0.0 && c.z > 0.0
    ensures Repeat(Vec3(p.x - kx as real * c.x, p.y - ky as real * c.y, p.z - kz as real * c.z), c)
         == Repeat(p, c)
  {
    var q := Vec3(p.x - kx as real * c.x, p.y - ky as real * c.y, p.z - kz as real * c.z);
    var px, py, pz := p.x, p.y, p.z;
    var qx, qy, qz := q.x, q.y, q.z;
    var cx, cy, cz := c.x, c.y, c.z;
    FRemShiftedNonPositive(px, qx, cx, kx);
    FRemShiftedNonPositive(py, qy, cy, ky);
    FRemShiftedNonPositive(pz, qz, cz, kz);
    assert Mod(q, c) == Vec3(FRem(qx, cx), FRem(qy, cy), FRem(qz, cz));
    assert Mod(q, c) == Mod(p, c);
  }

  /** One axis of that periodicity: a non-positive dividend moved down by k periods has the
      same remainder. */
  lemma FRemShiftedNonPositive(a: real, shifted: real, b: real, k: nat)
    requires a <= 0.0 && b > 0.0 && shifted == a - k as real * b
    ensures FRem(shifted, b) == FRem(a, b)
  {
    FRemPeriodicNonPositive(a, b, k);
  }

  /** Across zero Repeat is not periodic, because `%` truncates: x = -1 and x = 3 lie one
      period 4 apart but fold to -3 and 1. */
  lemma RepeatNotPeriodicAcrossZero()
    ensures Repeat(Vec3(-1.0, 0.0, 0.0), Vec3(4.0, 4.0, 4.0)).x == -3.0
    ensures Repeat(Vec3(3.0, 0.0, 0.0), Vec3(4.0, 4.0, 4.0)).x == 1.0
  {
    assert Trunc(-1.0 / 4.0) == 0;
    assert Trunc(3.0 / 4.0) == 0;
  }

  /** A twist by strength zero leaves the position where it is. */
  lemma TwistZero(e: Engine, p: Vec3)
    requires IsTrigonometry(e)
    ensures Twist(e, p, 0.0) == p
  {
    assert p.y * 0.0 == 0.0;
  }

  /** A twist keeps the height and the distance from the vertical axis. */
  lemma TwistKeepsAxisDistance(e: Engine, p: Vec3, strength: real)
    requires IsTrigonometry(e)
    ensures var q := Twist(e, p, strength);
      q.y == p.y && q.x * q.x + q.z * q.z == p.x * p.x + p.z * p.z
  {
    var a := p.y * strength;
    var c, s := e.cosDeg(a), e.sinDeg(a);
    var x, z := p.x, p.z;
    assert c * c + s * s == 1.0;
    calc {
      (x * c + z * s) * (x * c + z * s) + (-x * s + z * c) * (-x * s + z * c);
      x * x * (c * c + s * s) + z * z * (c * c + s * s);
      x * x + z * z;
    }
  }
}
