/** The cave generator's voxel fill: a Width x Height x Length lattice in which each cell is
    solid (1) or empty (0) according to whether the sum of two samples of a noise function
    exceeds 1. The noise (Mathf.PerlinNoise) is a parameter of which nothing is assumed. */
module CaveGenerator {

  /** A two-dimensional noise function, sampled at real coordinates. */
  type Noise = (real, real) -> real

  /** The threshold of the cell (x, y, z): the noise at (2x / Width, 2y / Height) plus the noise
      at (-3x / Width, 3z / Height). The z coordinate is scaled by the height, not by the
      length. */
  function Threshold(noise: Noise, width: int, height: int, x: int, y: int, z: int): real
    requires width > 0 && height > 0
  {
    noise((x * 2) as real / width as real, (y * 2) as real / height as real)
    + noise((-x * 3) as real / width as real, (z * 3) as real / height as real)
  }

  /** The value of the cell (x, y, z): 1 when its threshold exceeds 1, and 0 otherwise. */
  function Occupancy(noise: Noise, width: int, height: int, x: int, y: int, z: int): (r: int)
    requires width > 0 && height > 0
    ensures r == 0 || r == 1
    ensures r == 1 <==> Threshold(noise, width, height, x, y, z) > 1.0
  {
    if Threshold(noise, width, height, x, y, z) > 1.0 then 1 else 0
  }

  /** Because z is scaled by the height, moving Height cells along z moves the second noise
      sample by exactly 3, whatever the length of the lattice. */
  lemma ZStepOfOneHeight(noise: Noise, width: int, height: int, x: int, y: int, z: int)
    requires width > 0 && height > 0
    ensures Threshold(noise, width, height, x, y, z + height)
         == noise((x * 2) as real / width as real, (y * 2) as real / height as real)
          + noise((-x * 3) as real / width as real, (z * 3) as real / height as real + 3.0)
  {
    var h := height as real;
    assert ((z + height) * 3) as real == (z * 3) as real + 3.0 * h;
    var a := (z * 3) as real;
    var q := a / h;
    assert q * h == a;
    assert (q + 3.0) * h == a + 3.0 * h;
    QuotientOf(a + 3.0 * h, h, q + 3.0);
  }

  /** A quotient is the one number whose product with the divisor is the dividend. */
  lemma QuotientOf(n: real, d: real, q: real)
    requires d != 0.0 && q * d == n
    ensures n / d == q
  {
    assert (n / d) * d == n;
    assert (n / d - q) * d == 0.0;
  }

  /** The cell (x, y, z) lies in the lattice. */
  predicate InLattice(width: int, height: int, length: int, x: int, y: int, z: int)
  {
    0 <= x < width && 0 <= y < height && 0 <= z < length
  }

  /** The fill: a fresh Width x Height x Length array in which every cell holds its
      occupancy. The dimensions are those of the editor's ranges, 5 to 25. */
  method FillVoxels(width: int, height: int, length: int, noise: Noise)
    returns (voxeldata: array3<int>)
    requires 5 <= width <= 25 && 5 <= height <= 25 && 5 <= length <= 25
    ensures fresh(voxeldata)
    ensures voxeldata.Length0 == width && voxeldata.Length1 == height
    ensures voxeldata.Length2 == length
    ensures forall x, y, z :: InLattice(width, height, length, x, y, z) ==>
      voxeldata[x, y, z] == Occupancy(noise, width, height, x, y, z)
  {
    voxeldata := new int[width, height, length];
    for x := 0 to width
      invariant forall x', y', z' :: InLattice(x, height, length, x', y', z') ==>
        voxeldata[x', y', z'] == Occupancy(noise, width, height, x', y', z')
    {
      for y := 0 to height
        invariant forall x', y', z' :: InLattice(x, height, length, x', y', z') ==>
          voxeldata[x', y', z'] == Occupancy(noise, width, height, x', y', z')
        invariant forall y', z' :: 0 <= y' < y && 0 <= z' < length ==>
          voxeldata[x, y', z'] == Occupancy(noise, width, height, x, y', z')
      {
        for z := 0 to length
          invariant forall x', y', z' :: InLattice(x, height, length, x', y', z') ==>
            voxeldata[x', y', z'] == Occupancy(noise, width, height, x', y', z')
          invariant forall y', z' :: 0 <= y' < y && 0 <= z' < length ==>
            voxeldata[x, y', z'] == Occupancy(noise, width, height, x, y', z')
          invariant forall z' :: 0 <= z' < z ==>
            voxeldata[x, y, z'] == Occupancy(noise, width, height, x, y, z')
        {
          var thresh := noise((x * 2) as real / width as real, (y * 2) as real / height as real)
            + noise((-x * 3) as real / width as real, (z * 3) as real / height as real);
          voxeldata[x, y, z] := if thresh > 1.0 then 1 else 0;
        }
      }
    }
  }
}
