# Marching-cubes voxel generators, modelled in Dafny

This project models the voxel-data side of a Unity marching-cubes demo. It has three parts.

- **The distance-field library** is the static helpers of `DistancefieldGenerator`, after Inigo Quilez's distance functions:
  - twelve shape primitives (sphere, boxes, torus, cylinders, cone, plane, prisms, ellipsoid);
  - the CSG combinators `Union`, `Subtraction` and `Intersection`;
  - the domain helpers `Translate`, `Repeat`, `Mod`, `Abs`, `Divide`, `Twist` and `RotateAndTranslate`.
- **The demo generator** (`DemoGenerator.GenerateValue`) is a floor at height 0 plus fifteen exhibits laid out on 5 × 3 cells, each 6 × 6 units (cell 0 is 12 wide; see below).
- **The cave generator's voxel fill** is a triple loop that writes 0/1 occupancy into a `Width × Height × Length` array, using a noise threshold.

The model works over Dafny's exact `real`, not 32-bit floats. Unity's numeric routines become fields of the `Engine` datatype (`Vectors.Engine`), because they cannot be defined here:
- `magnitude` is the square root behind `Vector3.magnitude`;
- `cosDeg` and `sinDeg` are the trigonometry behind `Quaternion.Euler`;
- `inverseTimes` is `Matrix4x4.Inverse(m) * p`.

Lemmas about the shapes assume `IsMagnitude(e.magnitude)`: the magnitude is non-negative and its square is x² + y² + z². This describes the Euclidean length exactly. The properties callers use are derived from it as lemmas rather than assumed:
- `MagnitudeOfZero`: the magnitude of the zero vector is 0;
- `MagnitudeAxis`: an axis vector's magnitude is the absolute value of its component;
- `MagnitudeDefinite`: only the zero vector has magnitude 0;
- `MagnitudeScale`: scaling a vector scales its magnitude.

Lemmas about the twist assume `IsTrigonometry(e)`: cos 0 = 1, sin 0 = 0 and cos² + sin² = 1.

Two C# semantics are written out. `Numerics.Trunc` is the cast `(int)x`, which truncates toward zero. `Numerics.FRem` is the float remainder `a % b = a - trunc(a/b)·b`, whose sign follows the dividend.

Modules:
- `Numerics`: Mathf, the cast and `%`.
- `Vectors`: Unity vectors and the engine.
- `DistanceField`: the library.
- `ShapeLaws`: what the primitives compute.
- `DemoGenerator`: the scene.
- `CaveGenerator`: the fill.

Points where the code behaves in a way worth noting:
- Cell indices use the truncating cast `(int)(x / 6f)`. Cell 0 is therefore 12 units wide, from -6 to 6 (`DemoGenerator.CellIndexZeroBand`, `DemoGenerator.CellIndexNotFloor`).
- Only the cone is cut down by a bounding box (Assets/DemoGenerator.cs:67-73). The cylinder cell (0, 1) is the plain infinite cylinder.
- `Repeat` is built on the truncated `%`. Periodicity is proved for positive periods on non-negative positions (`DistanceField.RepeatPeriodicNonNegative`) and on non-positive positions (`DistanceField.RepeatPeriodicNonPositive`). It holds within each side of zero and fails across zero (`DistanceField.RepeatNotPeriodicAcrossZero`). A negative period gives the same remainder as the positive one (`Numerics.FRemNegatedDivisor`). GLSL's `mod`, which the code's comment cites, is periodic everywhere; this `%` is not.
- The C# `SignedCappedCylinder` does not compute the formula in its own comment; see "## Findings". The model keeps it as `DistanceField.SignedCappedCylinderAsWritten`, and the demo scene uses the corrected `DistanceField.SignedCappedCylinderIntended`. `DemoGenerator.CappedCylinderCellSign` proves that this changes no sign, so the scene's surface and solid are exactly those the code produces.

## Model

| member | source | states |
|---|---|---|
| Numerics.Min | Assets/MarchingCubes/DistancefieldGenerator.cs:195 | Mathf.Min: the result is one of the arguments and is at most both |
| Numerics.Max | Assets/MarchingCubes/DistancefieldGenerator.cs:217 | Mathf.Max: the result is one of the arguments and is at least both |
| Numerics.Abs | Assets/MarchingCubes/DistancefieldGenerator.cs:294 | the absolute value is non-negative and is x or -x |
| Numerics.TruncTowardZero | Assets/DemoGenerator.cs:19-20 | the `(int)` cast rounds down for non-negative arguments and up for non-positive ones |
| Numerics.FRemIsTruncatedRemainder | Assets/MarchingCubes/DistancefieldGenerator.cs:280-283 | `a % b` differs from a by a whole multiple of b, is smaller than b in magnitude, and has the sign of a |
| Numerics.TruncatedRemainderUnique | Assets/MarchingCubes/DistancefieldGenerator.cs:280-283 | at most one value is a truncated remainder of a by b |
| Numerics.FRemCharacterised | Assets/MarchingCubes/DistancefieldGenerator.cs:280-283 | r is a truncated remainder of a by b if and only if r == a % b |
| Numerics.FRemPeriodicNonNegative | Assets/MarchingCubes/DistancefieldGenerator.cs:280-283 | for a >= 0 and b > 0, adding k·b to a does not change a % b |
| Numerics.FRemPeriodicNonPositive | Assets/MarchingCubes/DistancefieldGenerator.cs:280-283 | for a <= 0 and b > 0, subtracting k·b from a does not change a % b |
| Numerics.FRemNegatedDivisor | Assets/MarchingCubes/DistancefieldGenerator.cs:280-283 | a % -b == a % b: the sign of the divisor does not matter |
| Vectors.MagnitudeOfZero | Assets/MarchingCubes/DistancefieldGenerator.cs:36 | Vector3.magnitude of the zero vector is 0 |
| Vectors.MagnitudeDefinite | Assets/MarchingCubes/DistancefieldGenerator.cs:36 | only the zero vector has magnitude 0 |
| Vectors.MagnitudeAxis | Assets/MarchingCubes/DistancefieldGenerator.cs:36 | an axis-aligned vector's magnitude is the absolute value of its component |
| Vectors.MagnitudeBoundsComponents | Assets/MarchingCubes/DistancefieldGenerator.cs:36 | no component exceeds the magnitude in absolute value |
| Vectors.MagnitudeScale | Assets/MarchingCubes/DistancefieldGenerator.cs:116 | scaling by t >= 0 scales the magnitude by t |
| Vectors.MagnitudeCompare | Assets/MarchingCubes/DistancefieldGenerator.cs:36 | magnitude < r, == r, <= r exactly when x²+y²+z² < r², == r², <= r² |
| Vectors.MagnitudeBySquares | Assets/MarchingCubes/DistancefieldGenerator.cs:89-90 | equal sums of squares mean equal magnitudes; a smaller sum means a smaller magnitude |
| DistanceField.Abs2 | Assets/MarchingCubes/DistancefieldGenerator.cs:291-296 | each component of Abs(Vector2) is non-negative and is the input component or its negation |
| DistanceField.Abs3 | Assets/MarchingCubes/DistancefieldGenerator.cs:303-309 | each component of Abs(Vector3) is non-negative and is the input component or its negation |
| DistanceField.AbsLaws | Assets/MarchingCubes/DistancefieldGenerator.cs:291-309 | both Abs overloads are idempotent and satisfy Abs(-v) == Abs(v) |
| DistanceField.Divide | Assets/MarchingCubes/DistancefieldGenerator.cs:317-320 | for non-zero divisor components, each quotient component times the divisor gives back the dividend |
| DistanceField.ModIsTruncatedRemainder | Assets/MarchingCubes/DistancefieldGenerator.cs:278-284 | r == Mod(a, b) if and only if each component of r is the truncated remainder of a's component by b's |
| DistanceField.Translate | Assets/MarchingCubes/DistancefieldGenerator.cs:238-241 | the translated position plus the translation is the position; it is zero exactly at the translation |
| DistanceField.TranslateLaws | Assets/MarchingCubes/DistancefieldGenerator.cs:238-241 | translating by t then by -t is the identity; translating by zero is the identity; translations compose by the sum |
| DistanceField.RepeatCentred | Assets/MarchingCubes/DistancefieldGenerator.cs:226-230 | for non-negative positions and positive periods, each component of Repeat lies in [-c/2, c/2) |
| DistanceField.RepeatPeriodicNonNegative | Assets/MarchingCubes/DistancefieldGenerator.cs:226-230 | for non-negative positions and positive periods, a shift by an integer vector (kx, ky, kz) >= 0 of periods, each axis on its own, does not change Repeat |
| DistanceField.RepeatPeriodicNonPositive | Assets/MarchingCubes/DistancefieldGenerator.cs:226-230 | for non-positive positions and positive periods, a shift down by (kx, ky, kz) >= 0 periods, each axis on its own, does not change Repeat |
| DistanceField.RepeatNotPeriodicAcrossZero | Assets/MarchingCubes/DistancefieldGenerator.cs:226-230 | x = -1 and x = 3 are one period 4 apart but fold to -3 and 1 |
| DistanceField.TwistZero | Assets/MarchingCubes/DistancefieldGenerator.cs:261-270 | a twist of strength 0 leaves the position unchanged |
| DistanceField.TwistKeepsAxisDistance | Assets/MarchingCubes/DistancefieldGenerator.cs:261-270 | a twist keeps the height and the distance from the vertical axis |
| DistanceField.Union | Assets/MarchingCubes/DistancefieldGenerator.cs:193-196 | the result is the smaller operand (at most both, one of them); it is negative exactly when either operand is |
| DistanceField.Subtraction | Assets/MarchingCubes/DistancefieldGenerator.cs:204-207 | the result is the larger of -a and b; it is negative exactly when a > 0 and b < 0 |
| DistanceField.Intersection | Assets/MarchingCubes/DistancefieldGenerator.cs:215-218 | the result is the larger operand; it is negative exactly when both operands are |
| DistanceField.CombinatorLaws | Assets/MarchingCubes/DistancefieldGenerator.cs:193-218 | Union and Intersection are commutative, associative and idempotent |
| DistanceField.SubtractionIsIntersectionWithComplement | Assets/MarchingCubes/DistancefieldGenerator.cs:204-218 | Subtraction(a, b) == Intersection(-a, b) |
| DistanceField.SubtractionNotCommutative | Assets/MarchingCubes/DistancefieldGenerator.cs:204-207 | Subtraction(-1, 2) == 2 but Subtraction(2, -1) == -1 |
| DistanceField.SignedHexagonalPrism | Assets/MarchingCubes/DistancefieldGenerator.cs:139-145 | the value is <= 0 exactly when abs(z) <= h.y, abs(y) <= h.x and 0.866025·abs(x) + 0.5·abs(y) <= h.x |
| DistanceField.SignedTriangularPrism | Assets/MarchingCubes/DistancefieldGenerator.cs:153-159 | the value is <= 0 exactly when abs(z) <= h.y, -y <= h.x/2 and 0.866025·abs(x) + 0.5·y <= h.x/2 |
| ShapeLaws.SphereLaws | Assets/MarchingCubes/DistancefieldGenerator.cs:33-37 | the sphere is -r at the centre and at least -r everywhere; it is negative or zero exactly when the squared length is below or equal to r² |
| ShapeLaws.BoxExcessZero | Assets/MarchingCubes/DistancefieldGenerator.cs:48 | max(abs(p) - b, 0) is zero exactly on the closed box |
| ShapeLaws.UnsignedBoxLaws | Assets/MarchingCubes/DistancefieldGenerator.cs:45-49 | the unsigned box is never negative, and it is zero exactly when abs(p_i) <= b_i on every axis |
| ShapeLaws.UnsignedBoxAlongAxis | Assets/MarchingCubes/DistancefieldGenerator.cs:45-49 | beyond a face along the x axis, the unsigned box is the distance to that face |
| ShapeLaws.UnsignedRoundBoxLaws | Assets/MarchingCubes/DistancefieldGenerator.cs:58-62 | the rounded box is the unsigned box minus the border radius; it is at least -r, and equals -r exactly on the box |
| ShapeLaws.SignedBoxCases | Assets/MarchingCubes/DistancefieldGenerator.cs:70-76 | inside the box the value is the largest face offset (<= 0); outside it equals the unsigned box, which is positive |
| ShapeLaws.SignedBoxSign | Assets/MarchingCubes/DistancefieldGenerator.cs:70-76 | the signed box is <= 0 exactly on the closed box and < 0 exactly strictly inside it |
| ShapeLaws.Magnitude2Compare | Assets/MarchingCubes/DistancefieldGenerator.cs:89-90 | Vector2.magnitude is < r or == r exactly when x² + y² is < r² or == r² |
| ShapeLaws.Magnitude2BySquares | Assets/MarchingCubes/DistancefieldGenerator.cs:89 | planar vectors with equal sums of squares have equal Vector2.magnitude |
| ShapeLaws.TorusOnCoreCircle | Assets/MarchingCubes/DistancefieldGenerator.cs:85-91 | on the core circle (y = 0, distance innerRadius from the axis) the torus is -outerRadius |
| ShapeLaws.TorusSign | Assets/MarchingCubes/DistancefieldGenerator.cs:85-91 | the torus is negative exactly when the squared distance to the core circle is below outerRadius² |
| ShapeLaws.TorusTwistInvariant | Assets/MarchingCubes/DistancefieldGenerator.cs:85-91 | twisting the position about the vertical axis does not change the torus |
| ShapeLaws.CylinderLaws | Assets/MarchingCubes/DistancefieldGenerator.cs:99-103 | the cylinder ignores the height; it is -c.z on its axis, and negative exactly within distance c.z of the axis |
| ShapeLaws.ConeScale | Assets/MarchingCubes/DistancefieldGenerator.cs:111-118 | the apex is on the cone's surface, and scaling the position by t >= 0 scales the value by t |
| ShapeLaws.PlaneAlongNormal | Assets/MarchingCubes/DistancefieldGenerator.cs:126-131 | for a unit normal, a move of t along it changes the value by t, and -w·n lies on the plane |
| ShapeLaws.HexagonalPrismSymmetric | Assets/MarchingCubes/DistancefieldGenerator.cs:139-145 | the hexagonal prism is symmetric under reflection of x, y or z |
| ShapeLaws.TriangularPrismSymmetricInX | Assets/MarchingCubes/DistancefieldGenerator.cs:153-159 | the triangular prism is symmetric under reflection of x |
| ShapeLaws.TriangularPrismNotSymmetricInY | Assets/MarchingCubes/DistancefieldGenerator.cs:153-159 | with h = (2, 1), (0, 1.5, 0) is inside (-0.25) but (0, -1.5, 0) is outside (0.5) |
| ShapeLaws.CappedCylinderAgreesOffCorner | Assets/MarchingCubes/DistancefieldGenerator.cs:167-173 | where d.x <= 0 or d.y <= 0, the code as written equals the formula in its comment |
| ShapeLaws.CappedCylinderCorner | Assets/MarchingCubes/DistancefieldGenerator.cs:167-173 | where both d.x and d.y are positive, the code returns max(d.x, d.y), which is strictly below the intended length(d) |
| ShapeLaws.CappedCylinderSameSign | Assets/MarchingCubes/DistancefieldGenerator.cs:167-173 | the code as written and the intended formula have the same sign everywhere |
| ShapeLaws.CappedCylinderCases | Assets/MarchingCubes/DistancefieldGenerator.cs:169-170 | the intended formula is max(d.x, d.y) where both offsets are <= 0, and the positive length(max(d, 0)) elsewhere |
| ShapeLaws.CappedCylinderInside | Assets/MarchingCubes/DistancefieldGenerator.cs:167-173 | the capped cylinder is <= 0 exactly when d.x, d.y <= 0, and < 0 exactly when both are negative |
| ShapeLaws.CappedCylinderCounterexample | Assets/MarchingCubes/DistancefieldGenerator.cs:172 | with h = (2, 3) at p = (5, 7, 0), d = (3, 4): the code gives 4, the formula gives 5 |
| ShapeLaws.EllipsoidSign | Assets/MarchingCubes/DistancefieldGenerator.cs:181-185 | for positive radii, the ellipsoid is negative or zero exactly when the sum of (p_i / r_i)² is below or equal to 1 |
| ShapeLaws.EllipsoidWithEqualRadiiIsSphere | Assets/MarchingCubes/DistancefieldGenerator.cs:181-185 | with three equal positive radii s, the ellipsoid is the sphere of radius s |
| DemoGenerator.CellIndex | Assets/DemoGenerator.cs:19-20 | the cell index k satisfies 6k <= x < 6(k+1) for x >= 0 and 6(k-1) < x <= 6k for x <= 0 |
| DemoGenerator.CellIndexZeroBand | Assets/DemoGenerator.cs:19-20 | the cell index is 0 exactly for coordinates strictly between -6 and 6 |
| DemoGenerator.CellIndexNotFloor | Assets/DemoGenerator.cs:19-20 | at -3 the cell index is 0, while the floor of -3/6 is -1 |
| DemoGenerator.GenerateValue | Assets/DemoGenerator.cs:15-141 | the value is at most 1 and at most position.y, because the floor is always unioned in |
| DemoGenerator.CellExhibit | Assets/DemoGenerator.cs:26-138 | a cell holds an exhibit exactly when 0 <= cellX <= 4 and 0 <= cellZ <= 2 |
| DemoGenerator.AnchorInItsCell | Assets/DemoGenerator.cs:26-138 | for non-negative indices, the anchor (6i + 4, 4, 6k + 4) each branch translates to lies in the very cell whose branch uses it, four units above the floor |
| DemoGenerator.GenerateValueIsCatalogue | Assets/DemoGenerator.cs:17-140 | the if/else chain equals the table: the floor, unioned with the one exhibit of the cell, evaluated at the position relative to the cell's anchor |
| DemoGenerator.CellExhibitInjective | Assets/DemoGenerator.cs:26-138 | no exhibit appears in two cells |
| DemoGenerator.GenerateValueOutsideCatalogue | Assets/DemoGenerator.cs:19-23 | outside the catalogued cells the value is exactly min(1, position.y) |
| DemoGenerator.GenerateValueSolid | Assets/DemoGenerator.cs:17-140 | in a catalogued cell the value is negative exactly when y < 0 or the cell's exhibit is negative |
| DemoGenerator.SphereCellValue | Assets/DemoGenerator.cs:26-30 | in cell (0, 0) the value is the floor unioned with the sphere of radius 2 about (4, 4, 4) |
| DemoGenerator.SphereCellCentre | Assets/DemoGenerator.cs:26-30 | the value at (4, 4, 4) is -2 |
| DemoGenerator.SphereCellTop | Assets/DemoGenerator.cs:26-30 | the value at (4, 6, 4), 2 above the centre, is 0 |
| DemoGenerator.SphereCellSolid | Assets/DemoGenerator.cs:26-30 | in cell (0, 0) a position is solid exactly when y < 0 or it lies less than 2 from (4, 4, 4) |
| DemoGenerator.UnsignedExhibitsNeverNegative | Assets/DemoGenerator.cs:33-129 | the exhibits built on an unsigned box (the box at 33-37, the cone ∩ box at 67-74, the sphere ∩ box at 123-129) are never negative |
| DemoGenerator.UnsignedCellsSolidOnlyBelowFloor | Assets/DemoGenerator.cs:33-129 | in cells (1, 0) (lines 33-37), (1, 1) (lines 67-74) and (3, 2) (lines 123-129) a position is solid exactly when y < 0 |
| DemoGenerator.ConeExhibitZeroSet | Assets/DemoGenerator.cs:69-74 | the cone exhibit is zero exactly on the part of the solid cone inside the box of half-size 2 |
| DemoGenerator.ConeDirectionPositive | Assets/DemoGenerator.cs:73 | the normalised (0.6, 0.3) has positive components, the first twice the second |
| DemoGenerator.CappedCylinderCellSign | Assets/DemoGenerator.cs:91-95 | the capped-cylinder exhibit has, everywhere, the sign of the capped cylinder exactly as the code writes it |
| DemoGenerator.TwistedTorusLastTwistIsVoid | Assets/DemoGenerator.cs:132-138 | the final twist of the twisted torus does not change its value |
| CaveGenerator.Occupancy | Assets/CaveGenerator.cs:30-32 | a cell's value is 0 or 1, and it is 1 exactly when the noise threshold exceeds 1 |
| CaveGenerator.ZStepOfOneHeight | Assets/CaveGenerator.cs:31 | z is scaled by the height: Height cells along z move the second noise sample by exactly 3 |
| CaveGenerator.FillVoxels | Assets/CaveGenerator.cs:23-35 | the result is a fresh Width × Height × Length array whose every cell (x, y, z) holds its occupancy |

## Left out

- Floating point: every value is an exact `real`, so the model does not capture IEEE rounding, overflow, or the NaN and infinity that `Divide` returns for a zero component. `Divide`, `Mod`, `Repeat` and `SignedEllipsoid` therefore require non-zero divisors.
- The `(int)` cast of `x / 6f` is exact truncation. C#'s behaviour for values beyond the int range is not modelled.
- `Vector3.magnitude`, `Quaternion.Euler` and `Matrix4x4.Inverse`/`TRS` are engine code. They are parameters of `Engine`. The magnitude is constrained by `IsMagnitude`, and cosine and sine by `IsTrigonometry`.
- DistanceField.RotateAndTranslate: the inverse of a matrix is left to the engine, so nothing is proved about this map. It enters the twisted torus only as a value.
- DistanceField.Twist: modelled as the rotation about the vertical axis that `Quaternion.Euler(0, p.y·strength, 0)` produces. Degrees and the engine's cosine and sine are inputs.
- `Mathf.PerlinNoise` is the parameter `noise` of `CaveGenerator.FillVoxels`. Nothing is assumed about its values.
- The unused `Seed` field of the cave generator is not modelled.
- `CaveGenerator.FillVoxels` stops at the filled array. Handing it to `MarchingCuber` and `GenerateMesh()` (Assets/CaveGenerator.cs:37-39) is not modelled; that mesher is not part of this model. The editor's `[Range(5, 25)]` clamps are the method's preconditions.
- Unity's `MonoBehaviour` lifecycle, `GetComponent`, and Assets/ProgressUpdater.cs (user-interface text and object destruction) are not modelled.
- DistanceField.Repeat: periodicity is proved within each side of zero, for positive periods. Negative periods are covered only through `Numerics.FRemNegatedDivisor`, which shows the remainder ignores the period's sign; no `Repeat` lemma covers them. Across zero, the truncated `%` makes periodicity false.
- DistanceField.SignedCone: the result is unbounded and its direction must be normalised. The model proves the scaling law and the apex, and states no distance bound.
- DistanceField.SignedPlane: the normal must be a unit vector. PlaneAlongNormal assumes this.
- DemoGenerator.GenerateValue: uses the corrected capped cylinder in cell (4, 1). It therefore differs from the code in value, but not in sign, where the point lies beyond both the radius and the half-height; see "## Findings".

## Findings

| source | as written | input that shows it | evidently intended | confidence | as-written member | corrected member |
|---|---|---|---|---|---|---|
| Assets/MarchingCubes/DistancefieldGenerator.cs:172 | the `0.0f +` sits inside the second argument of `Mathf.Min`, so the result is min(max(d.x, d.y), length(max(d, 0))) | position (5, 7, 0) with radius (2, 3): d = (3, 4), the code returns 4 | min(max(d.x, d.y), 0) + length(max(d, 0)), the formula in the comment at line 170, which gives the distance 5 to the rim | high, not executed | ShapeLaws.CappedCylinderCounterexample | DistanceField.SignedCappedCylinderIntended |
