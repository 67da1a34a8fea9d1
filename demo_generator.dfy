/** The demo scene: a floor at height 0 and a catalogue of fifteen exhibits laid out in the
    xz plane on five cells along x and three along z, each cell 6 x 6 units (cell 0 is 12
    wide, from -6 to 6). Each sample position selects its cell by truncating x / 6 and z / 6,
    and the exhibit of that cell is evaluated at the position relative to the cell's anchor
    (6i + 4, 4, 6k + 4). */
module DemoGenerator {
  import opened Numerics
  import opened Vectors
  import opened DistanceField
  import opened ShapeLaws

  datatype Option<T> = None | Some(value: T)

  /** The cell a coordinate falls in: the C# cast `(int)(coord / 6f)`, which truncates toward
      zero, so the cell 0 is twelve units wide, from -6 to 6. */
  function CellIndex(coord: real): (r: int)
    ensures coord >= 0.0 ==> 0 <= r && r as real * 6.0 <= coord < (r as real + 1.0) * 6.0
    ensures coord <= 0.0 ==> r <= 0 && (r as real - 1.0) * 6.0 < coord <= r as real * 6.0
  {
    TruncTowardZero(coord / 6.0);
    Trunc(coord / 6.0)
  }

  /** The fifteen exhibits of the catalogue. */
  datatype Exhibit =
    | SphereExhibit | BoxExhibit | RoundBoxExhibit | SignedBoxExhibit | TorusExhibit
    | CylinderExhibit | ConeExhibit | HexagonalPrismExhibit | TriangularPrismExhibit
    | CappedCylinderExhibit
    | EllipsoidExhibit | UnionExhibit | SubtractionExhibit | IntersectionExhibit
    | TwistedTorusExhibit

  /** The placement the twisted torus is turned by: no translation, 90 degrees about x, unit
      scale. */
  const TwistedTorusPlacement := Trs(Zero3, Vec3(90.0, 0.0, 0.0), One3)

  /** The direction of the cone exhibit, `new Vector2(0.60f, 0.30f).normalized`. */
  function ConeDirection(e: Engine): Vec2
  {
    Normalized2(e, Vec2(0.6, 0.3))
  }

  /** GenerateValue as the code writes it: start from 1, union the floor `position.y`, then
      union the one exhibit whose cell the if/else chain selects, at the position translated
      to that cell's anchor. Positions in no catalogued cell see only the floor. */
  function GenerateValue(e: Engine, position: Vec3): (r: real)
    ensures r <= 1.0 && r <= position.y
  {
    var cellX := CellIndex(position.x);
    var cellZ := CellIndex(position.z);
    var distance := Union(1.0, position.y);
    if cellX == 0 && cellZ == 0 then
      Union(distance, SignedSphere(e, Translate(position, Vec3(4.0, 4.0, 4.0)), 2.0))
    else if cellX == 1 && cellZ == 0 then
      Union(distance, UnsignedBox(e, Translate(position, Vec3(10.0, 4.0, 4.0)), Vec3(2.0, 1.0, 1.5)))
    else if cellX == 2 && cellZ == 0 then
      Union(distance, UnsignedRoundBox(e, Translate(position, Vec3(16.0, 4.0, 4.0)), Vec3(2.0, 1.0, 1.5), 0.5))
    else if cellX == 3 && cellZ == 0 then
      Union(distance, SignedBox(e, Translate(position, Vec3(22.0, 4.0, 4.0)), Vec3(2.0, 1.0, 1.5)))
    else if cellX == 4 && cellZ == 0 then
      Union(distance, SignedTorus(e, Translate(position, Vec3(28.0, 4.0, 4.0)), 2.0, 0.5))
    else if cellX == 0 && cellZ == 1 then
      Union(distance, SignedCylinder(e, Translate(position, Vec3(4.0, 4.0, 10.0)), Vec3(0.5, 0.5, 2.0)))
    else if cellX == 1 && cellZ == 1 then
      var pos := Translate(position, Vec3(10.0, 4.0, 10.0));
      Union(distance, Intersection(UnsignedBox(e, pos, Vec3(2.0, 2.0, 2.0)), SignedCone(e, pos, ConeDirection(e))))
    else if cellX == 2 && cellZ == 1 then
      Union(distance, SignedHexagonalPrism(Translate(position, Vec3(16.0, 4.0, 10.0)), Vec2(2.0, 1.0)))
    else if cellX == 3 && cellZ == 1 then
      Union(distance, SignedTriangularPrism(Translate(position, Vec3(22.0, 4.0, 10.0)), Vec2(2.0, 1.0)))
    else if cellX == 4 && cellZ == 1 then
      // the corrected capped cylinder, which has the code's sign everywhere
      Union(distance, SignedCappedCylinderIntended(e, Translate(position, Vec3(28.0, 4.0, 10.0)), Vec2(2.0, 3.0)))
    else if cellX == 0 && cellZ == 2 then
      Union(distance, SignedEllipsoid(e, Translate(position, Vec3(4.0, 4.0, 16.0)), Vec3(3.0, 2.0, 1.0)))
    else if cellX == 1 && cellZ == 2 then
      var pos := Translate(position, Vec3(10.0, 4.0, 16.0));
      Union(distance, Union(SignedSphere(e, pos, 2.0), UnsignedBox(e, pos, Vec3(2.0, 1.0, 1.5))))
    else if cellX == 2 && cellZ == 2 then
      var pos := Translate(position, Vec3(16.0, 4.0, 16.0));
      Union(distance, Subtraction(UnsignedBox(e, pos, Vec3(2.0, 1.0, 1.5)), SignedSphere(e, pos, 2.0)))
    else if cellX == 3 && cellZ == 2 then
      var pos := Translate(position, Vec3(22.0, 4.0, 16.0));
      Union(distance, Intersection(SignedSphere(e, pos, 1.75), UnsignedBox(e, pos, Vec3(2.0, 1.0, 1.5))))
    else if cellX == 4 && cellZ == 2 then
      var pos := Translate(position, Vec3(28.0, 4.0, 16.0));
      var twistedPos := Twist(e, pos, 45.0);
      var turnedPos := RotateAndTranslate(e, twistedPos, TwistedTorusPlacement);
      Union(distance, SignedTorus(e, Twist(e, turnedPos, 20.0), 2.0, 0.75))
    else
      distance
  }

  // ---------------------------------------------------------------------------------------
  // The catalogue as a table

  /** The exhibit of a cell, if the cell is catalogued: row z = 0 holds the sphere and the
      boxes and the torus, row z = 1 the cylinder, cone, prisms and capped cylinder, row
      z = 2 the ellipsoid, the three combinations of box and sphere, and the twisted torus. */
  function CellExhibit(cellX: int, cellZ: int): (r: Option<Exhibit>)
    ensures r.Some? <==> 0 <= cellX <= 4 && 0 <= cellZ <= 2
  {
    if !(0 <= cellX <= 4 && 0 <= cellZ <= 2) then None
    else
      var row := if cellZ == 0 then
          [SphereExhibit, BoxExhibit, RoundBoxExhibit, SignedBoxExhibit, TorusExhibit]
        else if cellZ == 1 then
          [CylinderExhibit, ConeExhibit, HexagonalPrismExhibit, TriangularPrismExhibit, CappedCylinderExhibit]
        else
          [EllipsoidExhibit, UnionExhibit, SubtractionExhibit, IntersectionExhibit, TwistedTorusExhibit];
      Some(row[cellX])
  }

  /** The anchor of a cell, to which the sample position is translated before its exhibit is
      evaluated: (6i + 4, 4, 6k + 4), two thirds of the way into the cell. */
  function CellAnchor(cellX: int, cellZ: int): Vec3
  {
    Vec3(6.0 * cellX as real + 4.0, 4.0, 6.0 * cellZ as real + 4.0)
  }

  /** For every cell of non-negative index the anchor lies in the very cell that dispatches
      to it, four units above the floor. */
  lemma AnchorInItsCell(cellX: nat, cellZ: nat)
    ensures CellIndex(CellAnchor(cellX, cellZ).x) == cellX
    ensures CellIndex(CellAnchor(cellX, cellZ).z) == cellZ
    ensures CellAnchor(cellX, cellZ).y == 4.0
  {
    var a := CellAnchor(cellX, cellZ);
    AnchorCoordinateInCell(cellX, a.x);
    AnchorCoordinateInCell(cellZ, a.z);
  }

  /** The coordinate 6i + 4 of a non-negative cell index i falls in cell i. */
  lemma AnchorCoordinateInCell(i: nat, coord: real)
    requires coord == 6.0 * i as real + 4.0
    ensures CellIndex(coord) == i
  {
    var k := CellIndex(coord);
    assert k as real * 6.0 <= coord < (k as real + 1.0) * 6.0;
    assert k <= i by {
      assert k as real * 6.0 < (i as real + 1.0) * 6.0;
    }
    assert i <= k by {
      assert i as real * 6.0 < (k as real + 1.0) * 6.0;
    }
  }

  /** The shape term of an exhibit at a position already relative to its anchor, with the
      parameters the catalogue gives it. */
  function ExhibitValue(e: Engine, exhibit: Exhibit, pos: Vec3): real
  {
    match exhibit
    case SphereExhibit => SignedSphere(e, pos, 2.0)
    case BoxExhibit => UnsignedBox(e, pos, Vec3(2.0, 1.0, 1.5))
    case RoundBoxExhibit => UnsignedRoundBox(e, pos, Vec3(2.0, 1.0, 1.5), 0.5)
    case SignedBoxExhibit => SignedBox(e, pos, Vec3(2.0, 1.0, 1.5))
    case TorusExhibit => SignedTorus(e, pos, 2.0, 0.5)
    case CylinderExhibit => SignedCylinder(e, pos, Vec3(0.5, 0.5, 2.0))
    case ConeExhibit =>
      Intersection(UnsignedBox(e, pos, Vec3(2.0, 2.0, 2.0)), SignedCone(e, pos, ConeDirection(e)))
    case HexagonalPrismExhibit => SignedHexagonalPrism(pos, Vec2(2.0, 1.0))
    case TriangularPrismExhibit => SignedTriangularPrism(pos, Vec2(2.0, 1.0))
    case CappedCylinderExhibit => SignedCappedCylinderIntended(e, pos, Vec2(2.0, 3.0))
    case EllipsoidExhibit => SignedEllipsoid(e, pos, Vec3(3.0, 2.0, 1.0))
    case UnionExhibit => Union(SignedSphere(e, pos, 2.0), UnsignedBox(e, pos, Vec3(2.0, 1.0, 1.5)))
    case SubtractionExhibit =>
      Subtraction(UnsignedBox(e, pos, Vec3(2.0, 1.0, 1.5)), SignedSphere(e, pos, 2.0))
    case IntersectionExhibit =>
      Intersection(SignedSphere(e, pos, 1.75), UnsignedBox(e, pos, Vec3(2.0, 1.0, 1.5)))
    case TwistedTorusExhibit =>
      var turnedPos := RotateAndTranslate(e, Twist(e, pos, 45.0), TwistedTorusPlacement);
      SignedTorus(e, Twist(e, turnedPos, 20.0), 2.0, 0.75)
  }

  /** The value the catalogue gives a position: the floor, unioned with the exhibit of the
      position's cell if it has one. */
  function CatalogueValue(e: Engine, position: Vec3): real
  {
    var cellX := CellIndex(position.x);
    var cellZ := CellIndex(position.z);
    var floor := Union(1.0, position.y);
    match CellExhibit(cellX, cellZ)
    case None => floor
    case Some(exhibit) =>
      Union(floor, ExhibitValue(e, exhibit, Translate(position, CellAnchor(cellX, cellZ))))
  }

  /** The if/else chain is the catalogue: every catalogued cell's branch translates the
      position to that cell's anchor and evaluates that cell's exhibit, and every other
      position sees only the floor. */
  lemma GenerateValueIsCatalogue(e: Engine, position: Vec3)
    ensures GenerateValue(e, position) == CatalogueValue(e, position)
  {
    var k := CellIndex(position.z);
    if k == 0 {
      CatalogueRow0(e, position);
    } else if k == 1 {
      CatalogueRow1(e, position);
    } else if k == 2 {
      CatalogueRow2(e, position);
    }
  }

  /** GenerateValueIsCatalogue for the positions of the row z = 0 of cells. */
  lemma CatalogueRow0(e: Engine, position: Vec3)
    requires CellIndex(position.z) == 0
    ensures GenerateValue(e, position) == CatalogueValue(e, position)
  {
  }

  /** GenerateValueIsCatalogue for the positions of the row z = 1 of cells. */
  lemma CatalogueRow1(e: Engine, position: Vec3)
    requires CellIndex(position.z) == 1
    ensures GenerateValue(e, position) == CatalogueValue(e, position)
  {
  }

  /** GenerateValueIsCatalogue for the positions of the row z = 2 of cells. */
  lemma CatalogueRow2(e: Engine, position: Vec3)
    requires CellIndex(position.z) == 2
    ensures GenerateValue(e, position) == CatalogueValue(e, position)
  {
  }

  /** Each catalogued exhibit sits in exactly one cell. */
  lemma CellExhibitInjective(i: int, k: int, i': int, k': int)
    requires CellExhibit(i, k).Some? && CellExhibit(i, k) == CellExhibit(i', k')
    ensures i == i' && k == k'
  {
  }

  // ---------------------------------------------------------------------------------------
  // Cells

  /** Truncation makes the cell 0 twice as wide as the others: every coordinate strictly
      between -6 and 6, and no other, falls in it. */
  lemma CellIndexZeroBand(coord: real)
    ensures CellIndex(coord) == 0 <==> -6.0 < coord < 6.0
  {
    var r := CellIndex(coord);
    if coord >= 0.0 && r >= 1 {
      assert r as real * 6.0 >= 6.0;
    }
    if coord <= 0.0 && r <= -1 {
      assert r as real * 6.0 <= -6.0;
    }
  }

  /** The cell index is not the floor of coord / 6: at -3 it is 0, the floor is -1. */
  lemma CellIndexNotFloor()
    ensures CellIndex(-3.0) == 0
    ensures (-3.0 / 6.0).Floor == -1
  {
    CellIndexZeroBand(-3.0);
  }

  // ---------------------------------------------------------------------------------------
  // The scene

  /** Outside the catalogued cells only the floor is left: the value is min(1, position.y). */
  lemma GenerateValueOutsideCatalogue(e: Engine, position: Vec3)
    requires !(0 <= CellIndex(position.x) <= 4 && 0 <= CellIndex(position.z) <= 2)
    ensures GenerateValue(e, position) == Min(1.0, position.y)
  {
    GenerateValueIsCatalogue(e, position);
  }

  /** Inside a catalogued cell the value is below the floor term exactly when the exhibit is:
      a position is solid exactly when it is below the floor or inside the cell's exhibit. */
  lemma GenerateValueSolid(e: Engine, position: Vec3)
    requires 0 <= CellIndex(position.x) <= 4 && 0 <= CellIndex(position.z) <= 2
    ensures var i, k := CellIndex(position.x), CellIndex(position.z);
      GenerateValue(e, position) < 0.0 <==>
        position.y < 0.0 ||
        ExhibitValue(e, CellExhibit(i, k).value, Translate(position, CellAnchor(i, k))) < 0.0
  {
    GenerateValueIsCatalogue(e, position);
  }

  /** The centre (4, 4, 4) of the sphere cell (0, 0) lies 2 inside the sphere. */
  lemma SphereCellCentre(e: Engine)
    requires IsMagnitude(e.magnitude)
    ensures GenerateValue(e, Vec3(4.0, 4.0, 4.0)) == -2.0
  {
    CellIndexZeroBand(4.0);
    SphereCellValue(e, Vec3(4.0, 4.0, 4.0));
    MagnitudeOfZero(e.magnitude);
    assert Translate(Vec3(4.0, 4.0, 4.0), Vec3(4.0, 4.0, 4.0)) == Zero3;
  }

  /** The point (4, 6, 4), two units above the centre of the sphere cell, is on the surface. */
  lemma SphereCellTop(e: Engine)
    requires IsMagnitude(e.magnitude)
    ensures GenerateValue(e, Vec3(4.0, 6.0, 4.0)) == 0.0
  {
    CellIndexZeroBand(4.0);
    SphereCellValue(e, Vec3(4.0, 6.0, 4.0));
    MagnitudeAxis(e.magnitude, 2.0);
    assert Translate(Vec3(4.0, 6.0, 4.0), Vec3(4.0, 4.0, 4.0)) == Vec3(0.0, 2.0, 0.0);
  }

  /** In the cell (0, 0) the value is the floor unioned with the sphere of radius 2 about
      (4, 4, 4). */
  lemma SphereCellValue(e: Engine, position: Vec3)
    requires CellIndex(position.x) == 0 && CellIndex(position.z) == 0
    ensures GenerateValue(e, position)
         == Union(Min(1.0, position.y), SignedSphere(e, Translate(position, Vec3(4.0, 4.0, 4.0)), 2.0))
  {
  }

  /** In the sphere cell a position is solid exactly when it is below the floor or less than
      2 from (4, 4, 4). */
  lemma SphereCellSolid(e: Engine, position: Vec3)
    requires IsMagnitude(e.magnitude)
    requires CellIndex(position.x) == 0 && CellIndex(position.z) == 0
    ensures GenerateValue(e, position) < 0.0 <==>
      position.y < 0.0 || SumSq(Sub(position, Vec3(4.0, 4.0, 4.0))) < 4.0
  {
    GenerateValueSolid(e, position);
    SphereLaws(e, Translate(position, Vec3(4.0, 4.0, 4.0)), 2.0);
  }

  /** The exhibits built on an unsigned box (the box, the cone cut by a box, and the
      intersection of sphere and box) are never negative: they have a surface but no inside. */
  lemma UnsignedExhibitsNeverNegative(e: Engine, exhibit: Exhibit, pos: Vec3)
    requires IsMagnitude(e.magnitude)
    requires exhibit == BoxExhibit || exhibit == ConeExhibit || exhibit == IntersectionExhibit
    ensures ExhibitValue(e, exhibit, pos) >= 0.0
  {
    UnsignedBoxLaws(e, pos, Vec3(2.0, 1.0, 1.5));
    UnsignedBoxLaws(e, pos, Vec3(2.0, 2.0, 2.0));
  }

  /** So in the cells of those exhibits, (1, 0), (1, 1) and (3, 2), only the floor is
      solid. */
  lemma UnsignedCellsSolidOnlyBelowFloor(e: Engine, position: Vec3)
    requires IsMagnitude(e.magnitude)
    requires var i, k := CellIndex(position.x), CellIndex(position.z);
      (i == 1 && k == 0) || (i == 1 && k == 1) || (i == 3 && k == 2)
    ensures GenerateValue(e, position) < 0.0 <==> position.y < 0.0
  {
    var i, k := CellIndex(position.x), CellIndex(position.z);
    GenerateValueSolid(e, position);
    UnsignedExhibitsNeverNegative(e, CellExhibit(i, k).value, Translate(position, CellAnchor(i, k)));
  }

  /** The cone exhibit is zero exactly on the part of the solid cone that lies in the box of
      half-size 2, and positive elsewhere. */
  lemma ConeExhibitZeroSet(e: Engine, pos: Vec3)
    requires IsMagnitude(e.magnitude)
    ensures ExhibitValue(e, ConeExhibit, pos) == 0.0 <==>
      InBox(pos, Vec3(2.0, 2.0, 2.0)) && SignedCone(e, pos, ConeDirection(e)) <= 0.0
  {
    UnsignedBoxLaws(e, pos, Vec3(2.0, 2.0, 2.0));
  }

  /** The cone's direction, the normalised (0.6, 0.3), has positive components, x twice y. */
  lemma ConeDirectionPositive(e: Engine)
    requires IsMagnitude(e.magnitude)
    ensures ConeDirection(e).x > 0.0 && ConeDirection(e).y > 0.0
    ensures ConeDirection(e).x == 2.0 * ConeDirection(e).y
  {
    var m := e.magnitude(Vec3(0.6, 0.3, 0.0));
    MagnitudeSquare(e.magnitude, Vec3(0.6, 0.3, 0.0));
    assert m * m == 0.45;
    SquareLess(m, 0.00001);
    assert m > 0.00001;
  }

  /** The capped-cylinder cell has the sign it would have with the capped cylinder exactly
      as the code writes it, so the scene's surface and solid are those of the code. */
  lemma CappedCylinderCellSign(e: Engine, pos: Vec3)
    requires IsMagnitude(e.magnitude)
    ensures Sign(ExhibitValue(e, CappedCylinderExhibit, pos))
         == Sign(SignedCappedCylinderAsWritten(e, pos, Vec2(2.0, 3.0)))
  {
    CappedCylinderSameSign(e, pos, Vec2(2.0, 3.0));
  }

  /** The last twist of the twisted torus does nothing: a torus about the vertical axis does
      not change under a twist about that axis. */
  lemma TwistedTorusLastTwistIsVoid(e: Engine, pos: Vec3)
    requires IsMagnitude(e.magnitude) && IsTrigonometry(e)
    ensures ExhibitValue(e, TwistedTorusExhibit, pos)
         == SignedTorus(e, RotateAndTranslate(e, Twist(e, pos, 45.0), TwistedTorusPlacement), 2.0, 0.75)
  {
    var turnedPos := RotateAndTranslate(e, Twist(e, pos, 45.0), TwistedTorusPlacement);
    TorusTwistInvariant(e, turnedPos, 20.0, 2.0, 0.75);
  }
}
