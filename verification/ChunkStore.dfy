/** The current chunk (Chunk.cs): a 32^3 block of voxel bytes stored z-major,
    read through GetVoxel, which resolves coordinates outside the block to
    the neighbouring chunk of the world's chunk map, and meshed by sampling a
    padded 34^3 copy that GreedyMesher.GenerateMeshData reads. */
module ChunkStore {
  import opened Geometry
  import opened VoxelTypes
  import opened SliceMerge
  import opened GreedyMesher
  import opened SweepOrder

  /** Chunk.Size and Chunk.PaddedSize. Products and quotients by Size are
      written with the numeral 32 (and 32 * 32 = 1024) below, which keeps
      the index and coordinate arithmetic linear. */
  const Size: int := 32
  const PaddedSize: int := Size + 2
  const Volume: int := 32 * 32 * 32
  const PaddedVolume: int := Cube(PaddedSize)

  // ---------------------------------------------------------------------------
  // Local storage

  predicate InRange(x: int, y: int, z: int) {
    0 <= x < Size && 0 <= y < Size && 0 <= z < Size
  }

  /** The z-major storage index of local cell (x, y, z). */
  function VoxelIndex(x: int, y: int, z: int): int {
    z * 1024 + y * 32 + x
  }

  /** Base-b digits: a * b + r, 0 <= r < b, splits back into a and r. */
  lemma Digits(a: int, r: int, b: int)
    requires b == 32 || b == 1024
    requires 0 <= r < b
    ensures (a * b + r) / b == a && (a * b + r) % b == r
  {
  }

  /** The storage index of a local cell lies in [0, Volume), and distinct
      cells have distinct indices. */
  lemma VoxelIndexInjective(x: int, y: int, z: int, x': int, y': int, z': int)
    requires InRange(x, y, z) && InRange(x', y', z')
    ensures 0 <= VoxelIndex(x, y, z) < Volume
    ensures VoxelIndex(x, y, z) == VoxelIndex(x', y', z') ==> x == x' && y == y' && z == z'
  {
    Digits(z * 32 + y, x, 32);
    Digits(z, y, 32);
    Digits(z' * 32 + y', x', 32);
    Digits(z', y', 32);
  }

  /** Every storage index is the index of the local cell its base-32 digits name. */
  lemma VoxelIndexOnto(k: int)
    requires 0 <= k < Volume
    ensures InRange(k % 32, k / 32 % 32, k / 1024)
    ensures VoxelIndex(k % 32, k / 32 % 32, k / 1024) == k
  {
    var a := k / 32;
    assert k == a * 32 + k % 32;
    assert a == a / 32 * 32 + a % 32;
    Digits(a / 32, a % 32 * 32 + k % 32, 1024);
  }

  // ---------------------------------------------------------------------------
  // Neighbour resolution arithmetic

  /** C#'s `%` on int: the remainder of division truncated toward zero, which
      takes the sign of the dividend. */
  function CsRem(a: int, b: int): (r: int)
    requires b > 0
    ensures -b < r < b && (a >= 0 ==> r >= 0) && (a <= 0 ==> r <= 0)
  {
    if a >= 0 then a % b else -((-a) % b)
  }

  /** `(int)Mathf.Floor(a / (float)Size)`, with the quotient taken exactly. */
  function NeighbourCoord(a: int): int {
    ((a as real) / (Size as real)).Floor
  }

  /** `(a % Size + Size) % Size` with C#'s remainder. */
  function LocalCoord(a: int): int {
    CsRem(CsRem(a, Size) + Size, Size)
  }

  /** C#'s truncating remainder differs from the Euclidean one exactly for
      negative dividends that are not multiples of the divisor. */
  lemma CsRemIsEuclideanOrShifted(a: int)
    ensures CsRem(a, Size) == (if a >= 0 || a % Size == 0 then a % Size else a % Size - Size)
  {
  }

  /** The floored quotient and the shifted remainder of one coordinate are the
      Euclidean quotient and remainder: the owning chunk and the local
      coordinate in it, which recombine to the coordinate. */
  lemma ResolveAxis(a: int)
    ensures NeighbourCoord(a) == a / 32
    ensures LocalCoord(a) == a % 32 && 0 <= a % 32 < Size
    ensures (a / 32) * 32 + a % 32 == a
  {
    var q, r := a / 32, a % 32;
    assert (a as real) / (Size as real) == q as real + (r as real) / (Size as real);
    CsRemIsEuclideanOrShifted(a);
  }

  /** The world coordinate of local coordinate (x, y, z) of the chunk at
      `position`. */
  function WorldOf(position: Vec3, x: int, y: int, z: int): Vec3 {
    Vec3(position.x * 32 + x, position.y * 32 + y, position.z * 32 + z)
  }

  /** The position of the chunk that owns world coordinate w: per axis the
      floored quotient NeighbourCoord computes, written as the Euclidean
      quotient it equals (ResolveAxis). */
  function OwnerOf(w: Vec3): Vec3 {
    Vec3(w.x / 32, w.y / 32, w.z / 32)
  }

  /** The local coordinate of world coordinate w in its owning chunk: per
      axis the shifted remainder LocalCoord computes, written as the
      Euclidean remainder it equals (ResolveAxis). */
  function LocalOf(w: Vec3): Vec3 {
    Vec3(w.x % 32, w.y % 32, w.z % 32)
  }

  /** OwnerOf and LocalOf are the source's per-axis formulas. */
  lemma OwnerAndLocalAreSourceFormulas(w: Vec3)
    ensures OwnerOf(w) == Vec3(NeighbourCoord(w.x), NeighbourCoord(w.y), NeighbourCoord(w.z))
    ensures LocalOf(w) == Vec3(LocalCoord(w.x), LocalCoord(w.y), LocalCoord(w.z))
  {
    ResolveAxis(w.x);
    ResolveAxis(w.y);
    ResolveAxis(w.z);
  }

  /** Every world coordinate is a local cell of exactly the chunk OwnerOf
      names: the local coordinate is in range and recombines with the owner
      to the world coordinate. */
  lemma ResolveWorld(w: Vec3)
    ensures InRange(LocalOf(w).x, LocalOf(w).y, LocalOf(w).z)
    ensures WorldOf(OwnerOf(w), LocalOf(w).x, LocalOf(w).y, LocalOf(w).z) == w
  {
    ResolveAxis(w.x);
    ResolveAxis(w.y);
    ResolveAxis(w.z);
  }

  /** A coordinate outside the block resolves to another chunk, so the
      source's recursive call never asks a chunk for itself. */
  lemma NeighbourIsOther(position: Vec3, x: int, y: int, z: int)
    requires !InRange(x, y, z)
    ensures OwnerOf(WorldOf(position, x, y, z)) != position
  {
    var w := WorldOf(position, x, y, z);
    ResolveWorld(w);
  }

  /** Chunk (-1, 0, 0) asked for local x = -1 resolves to chunk (-2, 0, 0)
      at local x = 31. */
  lemma ResolveExample()
    ensures OwnerOf(WorldOf(Vec3(-1, 0, 0), -1, 0, 0)) == Vec3(-2, 0, 0)
    ensures LocalOf(WorldOf(Vec3(-1, 0, 0), -1, 0, 0)) == Vec3(Size - 1, 0, 0)
  {
    ResolveAxis(-Size - 1);
    ResolveAxis(0);
  }

  // ---------------------------------------------------------------------------
  // The world's chunk map and the chunk

  /** World.VoxelChunks as the chunks of Chunk.cs see it. */
  class World {
    var chunks: map<Vec3, Chunk>
    /** The voxel arrays of the chunks of the map. */
    ghost var storage: set<array<byte>>

    constructor()
      ensures chunks == map[] && storage == {}
    {
      chunks := map[];
      storage := {};
    }

    /** Every chunk of the map belongs to this world and has a full block. */
    ghost predicate Valid()
      reads this
    {
      forall p | p in chunks :: chunks[p].world == this && chunks[p].voxels.Length == Volume && chunks[p].voxels in storage
    }
  }

  /** The terrain generator's inputs for one chunk, in world coordinates:
      the surface height of each column (seaLevel plus the scaled terrain
      noise) and whether a cell is carved out as a cave (cave noise above
      0.6). */
  datatype TerrainInputs = TerrainInputs(surfaceAt: (int, int) -> int, caveAt: (int, int, int) -> bool)

  const SeaLevel: int := 0

  /** How deep the dirt band under the surface reaches. */
  const DirtDepth: int := 40

  /** The type of the cell at world height wy in a column whose surface is
      at height `surface`: caves are air; above the surface lies water up to
      sea level and air beyond it; the surface cell is grass, the 39 cells
      under it dirt, and everything deeper stone. */
  function ClassifyCell(wy: int, surface: int, cave: bool): (t: byte)
    ensures IsDeclared(t)
    ensures IsSolid(t) <==> !cave && (wy <= surface || wy <= SeaLevel)
  {
    if cave then Air
    else if wy > surface then (if wy <= SeaLevel then Water else Air)
    else if wy == surface then Grass
    else if wy > surface - DirtDepth then Dirt
    else Stone
  }

  /** The height order of the layers of a column: stone, dirt, grass, water,
      air. */
  function LayerRank(t: byte): int {
    if t == Stone then 0 else if t == Dirt then 1 else if t == Grass then 2 else if t == Water then 3 else 4
  }

  /** Outside caves, a column is layered: going up never meets a lower layer
      again. There is exactly one grass cell, at the surface, and dirt fills
      exactly the cells strictly between DirtDepth below it and it. */
  lemma ColumnLayers(wy: int, wy': int, surface: int)
    requires wy < wy'
    ensures LayerRank(ClassifyCell(wy, surface, false)) <= LayerRank(ClassifyCell(wy', surface, false))
    ensures ClassifyCell(wy, surface, false) == Grass <==> wy == surface
    ensures ClassifyCell(wy, surface, false) == Dirt <==> surface - DirtDepth < wy < surface
    ensures ClassifyCell(wy, surface, false) == Water <==> surface < wy <= SeaLevel
  {
  }

  /** The type generated at local cell (x, y, z) of the chunk at `position`. */
  function TerrainCell(position: Vec3, inputs: TerrainInputs, x: int, y: int, z: int): byte {
    var w := WorldOf(position, x, y, z);
    ClassifyCell(w.y, inputs.surfaceAt(w.x, w.z), inputs.caveAt(w.x, w.y, w.z))
  }

  /** The voxels v hold their TerrainCell at every local cell the
      generator's x, z, y loops visit before (x, z, y). */
  ghost predicate TerrainBefore(v: seq<byte>, position: Vec3, inputs: TerrainInputs, x: int, z: int, y: int) {
    && |v| == Volume
    && forall x', y', z' | InRange(x', y', z') && FilledFirst(x', z', y', x, z, y) ::
         v[VoxelIndex(x', y', z')] == TerrainCell(position, inputs, x', y', z')
  }

  /** Generating cell (x, y, z) extends the generated cells by one. */
  lemma TerrainStep(v: seq<byte>, position: Vec3, inputs: TerrainInputs, x: int, y: int, z: int)
    requires InRange(x, y, z) && TerrainBefore(v, position, inputs, x, z, y)
    ensures 0 <= VoxelIndex(x, y, z) < |v|
    ensures TerrainBefore(v[VoxelIndex(x, y, z) := TerrainCell(position, inputs, x, y, z)], position, inputs, x, z, y + 1)
  {
    VoxelIndexInjective(x, y, z, x, y, z);
    var v' := v[VoxelIndex(x, y, z) := TerrainCell(position, inputs, x, y, z)];
    forall x', y', z' | InRange(x', y', z') && FilledFirst(x', z', y', x, z, y + 1)
      ensures v'[VoxelIndex(x', y', z')] == TerrainCell(position, inputs, x', y', z')
    {
      if x' != x || y' != y || z' != z {
        VoxelIndexInjective(x', y', z', x, y, z);
        assert FilledFirst(x', z', y', x, z, y);
      }
    }
  }

  /** A generated column carries on to the next column, and a generated
      slab of columns to the next slab. */
  lemma TerrainCarry(v: seq<byte>, position: Vec3, inputs: TerrainInputs, x: int, z: int)
    ensures TerrainBefore(v, position, inputs, x, z, Size) ==> TerrainBefore(v, position, inputs, x, z + 1, 0)
    ensures TerrainBefore(v, position, inputs, x, Size, 0) ==> TerrainBefore(v, position, inputs, x + 1, 0, 0)
  {
  }

  /** The offset of padded cell (x, y, z), 0 <= x, y, z < PaddedSize, in the
      z-major padded buffer: the mesher's own index Idx, which
      PaddedOffsetIsSourceFormula shows is z*P*P + y*P + x. */
  function PaddedOffset(x: int, y: int, z: int): (k: int)
    requires 0 <= x < PaddedSize && 0 <= y < PaddedSize && 0 <= z < PaddedSize
    ensures 0 <= k < PaddedVolume
  {
    IdxInBounds(Size, x, y, z);
    Idx(Size, x, y, z)
  }

  /** The padded offset is the source's z * P * P + y * P + x. */
  lemma PaddedOffsetIsSourceFormula(x: int, y: int, z: int)
    requires 0 <= x < PaddedSize && 0 <= y < PaddedSize && 0 <= z < PaddedSize
    ensures PaddedOffset(x, y, z) == z * PaddedSize * PaddedSize + y * PaddedSize + x
  {
    IdxIsProduct(Size, x, y, z);
  }

  /** The padded offsets are the buffer indices GreedyMesher reads: padded
      cell (x, y, z) holds local cell (x - 1, y - 1, z - 1). */
  lemma PaddedOffsetIsMesherIndex(x: int, y: int, z: int)
    requires 0 <= x < PaddedSize && 0 <= y < PaddedSize && 0 <= z < PaddedSize
    ensures PaddedIndex(Size, Vec3(x - 1, y - 1, z - 1)) == PaddedOffset(x, y, z)
  {
  }

  /** Distinct padded cells have distinct offsets. */
  lemma PaddedOffsetInjective(x: int, y: int, z: int, x': int, y': int, z': int)
    requires 0 <= x < PaddedSize && 0 <= y < PaddedSize && 0 <= z < PaddedSize
    requires 0 <= x' < PaddedSize && 0 <= y' < PaddedSize && 0 <= z' < PaddedSize
    requires x != x' || y != y' || z != z'
    ensures PaddedOffset(x, y, z) != PaddedOffset(x', y', z')
  {
    var p := PaddedSize;
    CellIndexBound(p, x, y);
    CellIndexBound(p, x', y');
    CubeIsProduct(p);
    RowStartMonotone(p, 0, 1);
    RowStartMonotone(p, 1, p);
    if z == z' {
      CellIndexInjective(p, x, y, x', y');
    }
    CellIndexInjective(Square(p), RowStart(p, y) + x, z, RowStart(p, y') + x', z');
  }

  /** Every index of the padded buffer is the offset of the cell its digits
      in base PaddedSize name. */
  lemma PaddedOffsetOnto(k: int)
    requires 0 <= k < PaddedVolume
    ensures 0 <= k % PaddedSize < PaddedSize && 0 <= k / PaddedSize % PaddedSize < PaddedSize
    ensures 0 <= k / PaddedSize / PaddedSize < PaddedSize
    ensures PaddedOffset(k % PaddedSize, k / PaddedSize % PaddedSize, k / PaddedSize / PaddedSize) == k
  {
    var x, a := k % PaddedSize, k / PaddedSize;
    var y, z := a % PaddedSize, a / PaddedSize;
    CubeIsProduct(PaddedSize);
    assert PaddedSize == 34 && PaddedVolume == 39304;
    assert k == 34 * a + x && a == 34 * z + y;
    PaddedOffsetIsSourceFormula(x, y, z);
  }

  /** The chunk cell whose voxel the padded buffer holds at offset k: the
      digits of k in base PaddedSize, lowest first, each less one. */
  function PaddedCoord(k: int): Vec3
  {
    Vec3(k % PaddedSize - 1, k / PaddedSize % PaddedSize - 1, k / PaddedSize / PaddedSize - 1)
  }

  /** Padded cell (x, y, z) holds chunk cell (x - 1, y - 1, z - 1). */
  lemma PaddedOffsetDigits(x: int, y: int, z: int)
    requires 0 <= x < PaddedSize && 0 <= y < PaddedSize && 0 <= z < PaddedSize
    ensures PaddedCoord(PaddedOffset(x, y, z)) == Vec3(x - 1, y - 1, z - 1)
  {
    var k := PaddedOffset(x, y, z);
    PaddedOffsetOnto(k);
    var x', y', z' := k % PaddedSize, k / PaddedSize % PaddedSize, k / PaddedSize / PaddedSize;
    if x != x' || y != y' || z != z' {
      PaddedOffsetInjective(x, y, z, x', y', z');
    }
  }

  /** The mesher's index of chunk cell p, -1 <= p.x, p.y, p.z <= Size, lies in
      the padded buffer and holds cell p. */
  lemma PaddedIndexCoord(x: int, y: int, z: int)
    requires -1 <= x <= Size && -1 <= y <= Size && -1 <= z <= Size
    ensures 0 <= PaddedIndex(Size, Vec3(x, y, z)) < PaddedVolume
    ensures PaddedCoord(PaddedIndex(Size, Vec3(x, y, z))) == Vec3(x, y, z)
  {
    var k := PaddedOffset(x + 1, y + 1, z + 1);
    assert PaddedIndex(Size, Vec3(x, y, z)) == k by {
      PaddedOffsetIsMesherIndex(x + 1, y + 1, z + 1);
      assert Vec3(x + 1 - 1, y + 1 - 1, z + 1 - 1) == Vec3(x, y, z);
    }
    PaddedOffsetDigits(x + 1, y + 1, z + 1);
  }

  /** Loop counters (a', b', c') come before (a, b, c) in three nested loops
      over a, b and c, a outermost: the order in which the nested fill loops
      visit cells. */
  predicate FilledFirst(a': int, b': int, c': int, a: int, b: int, c: int) {
    a' < a || (a' == a && (b' < b || (b' == b && c' < c)))
  }

  /** The padded copy a agrees with b at every cell filled before (x, y, z). */
  ghost predicate FilledBefore(a: seq<byte>, b: seq<byte>, x: int, y: int, z: int) {
    && |a| == PaddedVolume && |b| == PaddedVolume
    && forall x', y', z' | 0 <= x' < PaddedSize && 0 <= y' < PaddedSize && 0 <= z' < PaddedSize
         && FilledFirst(x', y', z', x, y, z) :: a[PaddedOffset(x', y', z')] == b[PaddedOffset(x', y', z')]
  }

  /** Filling cell (x, y, z) from b extends the agreement to the next cell. */
  lemma FillStep(a: seq<byte>, b: seq<byte>, x: int, y: int, z: int)
    requires 0 <= x < PaddedSize && 0 <= y < PaddedSize && 0 <= z < PaddedSize
    requires FilledBefore(a, b, x, y, z)
    ensures FilledBefore(a[PaddedOffset(x, y, z) := b[PaddedOffset(x, y, z)]], b, x, y, z + 1)
  {
    forall x', y', z' | 0 <= x' < PaddedSize && 0 <= y' < PaddedSize && 0 <= z' < PaddedSize
                        && FilledFirst(x', y', z', x, y, z)
      ensures PaddedOffset(x', y', z') != PaddedOffset(x, y, z)
    {
      PaddedOffsetInjective(x', y', z', x, y, z);
    }
  }

  /** A filled row carries the agreement on to the next row. */
  lemma FillNextRow(a: seq<byte>, b: seq<byte>, x: int, y: int)
    requires FilledBefore(a, b, x, y, PaddedSize)
    ensures FilledBefore(a, b, x, y + 1, 0)
  {
  }

  /** A filled column of rows carries the agreement on to the next column. */
  lemma FillNextColumn(a: seq<byte>, b: seq<byte>, x: int)
    requires FilledBefore(a, b, x, PaddedSize, 0)
    ensures FilledBefore(a, b, x + 1, 0, 0)
  {
  }

  /** Two padded buffers that agree at the offset of every padded cell are
      equal. */
  lemma PaddedBuffersAgree(a: seq<byte>, b: seq<byte>)
    requires |a| == PaddedVolume && |b| == PaddedVolume
    requires FilledBefore(a, b, PaddedSize, 0, 0)
    ensures a == b
  {
    forall k | 0 <= k < PaddedVolume
      ensures a[k] == b[k]
    {
      PaddedOffsetOnto(k);
    }
  }

  class Chunk {
    const position: Vec3
    const world: World?
    const voxels: array<byte>
    var isDataGenerated: bool

    /** A new chunk: all Air, no data generated yet. */
    constructor(world: World?, position: Vec3)
      ensures this.world == world && this.position == position
      ensures fresh(voxels) && voxels.Length == Volume && forall k | 0 <= k < Volume :: voxels[k] == Air
      ensures !IsDataGenerated()
    {
      this.world := world;
      this.position := position;
      voxels := new byte[Volume](_ => Air);
      isDataGenerated := false;
    }

    /** The chunk has its full block, and its world, if any, is valid. */
    ghost predicate Ready()
      reads world
    {
      voxels.Length == Volume && (world != null ==> world.Valid())
    }

    /** The voxel arrays GetVoxel may read: its own and those of the chunks
      of its world. */
    ghost function Footprint(): set<array<byte>>
      reads world
    {
      {voxels} + if world != null then world.storage else {}
    }

    /** The voxel at local coordinate (x, y, z): the stored cell when it is
        in range; otherwise the cell of the chunk that owns the world
        coordinate, found in the world's map, or Air when there is no world
        or no such chunk. */
    function GetVoxel(x: int, y: int, z: int): byte
      requires Ready()
      reads world, Footprint()
      decreases if InRange(x, y, z) then 0 else 1
    {
      if InRange(x, y, z) then
        voxels[VoxelIndex(x, y, z)]
      else
        var w := WorldOf(position, x, y, z);
        var n := OwnerOf(w);
        if world != null && n in world.chunks then
          var l := LocalOf(w);
          world.chunks[n].GetVoxel(l.x, l.y, l.z)
        else
          Air
    }

    /** Outside the block, GetVoxel takes one hop: it returns the stored
        cell of the owning chunk, a chunk other than this one, or Air. */
    lemma OutOfRangeRead(x: int, y: int, z: int)
      requires Ready() && !InRange(x, y, z)
      ensures var w := WorldOf(position, x, y, z);
        && OwnerOf(w) != position
        && InRange(LocalOf(w).x, LocalOf(w).y, LocalOf(w).z)
        && GetVoxel(x, y, z)
           == if world != null && OwnerOf(w) in world.chunks
              then world.chunks[OwnerOf(w)].voxels[VoxelIndex(LocalOf(w).x, LocalOf(w).y, LocalOf(w).z)]
              else Air
    {
      NeighbourIsOther(position, x, y, z);
      ResolveWorld(WorldOf(position, x, y, z));
    }

    /** Write the cell at storage index z*S*S + y*S + x. The source checks
        only that the index lies in the array. The last ensures is a
        corollary of the first with VoxelIndexInjective, spelled out per
        cell: every other in-range cell keeps its voxel. */
    method SetVoxel(x: int, y: int, z: int, value: byte)
      requires voxels.Length == Volume && 0 <= VoxelIndex(x, y, z) < Volume
      modifies voxels
      ensures voxels[..] == old(voxels[..])[VoxelIndex(x, y, z) := value]
      ensures Ready() ==> InRange(x, y, z) ==> GetVoxel(x, y, z) == value
      ensures forall x', y', z' | InRange(x', y', z') && (x' != x || y' != y || z' != z) && InRange(x, y, z) ::
                voxels[VoxelIndex(x', y', z')] == old(voxels[VoxelIndex(x', y', z')])
    {
      ghost var before := voxels[..];
      voxels[VoxelIndex(x, y, z)] := value;
      forall x', y', z' | InRange(x', y', z') && (x' != x || y' != y || z' != z) && InRange(x, y, z)
        ensures voxels[VoxelIndex(x', y', z')] == before[VoxelIndex(x', y', z')]
      {
        VoxelIndexInjective(x, y, z, x', y', z');
      }
    }

    /** The padded view of everything the mesher reads: cell k holds the
        voxel GetVoxel returns for chunk cell PaddedCoord(k). */
    ghost function Padded(): (buf: seq<byte>)
      requires Ready()
      reads world, Footprint()
      ensures |buf| == PaddedVolume
      ensures forall k {:trigger PaddedCoord(k)} | 0 <= k < PaddedVolume ::
        buf[k] == GetVoxel(PaddedCoord(k).x, PaddedCoord(k).y, PaddedCoord(k).z)
    {
      seq<byte>(PaddedVolume, k requires Ready() reads world, Footprint() =>
        GetVoxel(PaddedCoord(k).x, PaddedCoord(k).y, PaddedCoord(k).z))
    }

    /** The padded view holds GetVoxel(x - 1, y - 1, z - 1) at the offset of
        padded cell (x, y, z). */
    lemma PaddedAt(x: int, y: int, z: int)
      requires Ready() && 0 <= x < PaddedSize && 0 <= y < PaddedSize && 0 <= z < PaddedSize
      ensures Padded()[PaddedOffset(x, y, z)] == GetVoxel(x - 1, y - 1, z - 1)
    {
      PaddedOffsetDigits(x, y, z);
    }

    /** BuildPaddedVoxels: the padded copy the mesher reads, filled x, then y,
        then z, each cell from GetVoxel. */
    method BuildPaddedVoxels() returns (paddedVoxels: array<byte>)
      requires Ready()
      ensures fresh(paddedVoxels) && paddedVoxels[..] == Padded()
    {
      ghost var snapshot := Padded();
      paddedVoxels := new byte[PaddedVolume];
      for x := 0 to PaddedSize
        invariant FilledBefore(paddedVoxels[..], snapshot, x, 0, 0)
      {
        for y := 0 to PaddedSize
          invariant FilledBefore(paddedVoxels[..], snapshot, x, y, 0)
        {
          for z := 0 to PaddedSize
            invariant FilledBefore(paddedVoxels[..], snapshot, x, y, z)
          {
            var v := GetVoxel(x - 1, y - 1, z - 1);
            PaddedStill(this);
            PaddedAt(x, y, z);
            FillStep(paddedVoxels[..], snapshot, x, y, z);
            paddedVoxels[PaddedOffset(x, y, z)] := v;
          }
          FillNextRow(paddedVoxels[..], snapshot, x, y);
        }
        FillNextColumn(paddedVoxels[..], snapshot, x);
      }
      PaddedBuffersAgree(paddedVoxels[..], snapshot);
      PaddedStill(this);
    }

    /** buf holds, at the mesher's index of every cell the mesher reads, the
        voxel GetVoxel returns for it. */
    ghost predicate Mirrors(buf: seq<byte>)
      reads world, Footprint()
    {
      && Ready() && |buf| == Cube(Size + 2)
      && forall x, y, z {:trigger PaddedIndex(Size, Vec3(x, y, z))}
           | -1 <= x <= Size && -1 <= y <= Size && -1 <= z <= Size ::
           buf[PaddedIndex(Size, Vec3(x, y, z))] == GetVoxel(x, y, z)
    }

    /** The mirror at one point the mesher reads. */
    lemma MirrorsAt(buf: seq<byte>, p: Vec3)
      requires Mirrors(buf) && -1 <= p.x <= Size && -1 <= p.y <= Size && -1 <= p.z <= Size
      ensures 0 <= PaddedIndex(Size, p) < |buf| && buf[PaddedIndex(Size, p)] == GetVoxel(p.x, p.y, p.z)
    {
      assert p == Vec3(p.x, p.y, p.z);
    }

    /** The padded view mirrors the chunk's reads: the mesher's read of chunk
        cell (x, y, z), -1 <= x, y, z <= Size, sees GetVoxel(x, y, z). */
    lemma PaddedMirrors()
      requires Ready()
      ensures Mirrors(Padded())
    {
      forall x, y, z | -1 <= x <= Size && -1 <= y <= Size && -1 <= z <= Size
        ensures Padded()[PaddedIndex(Size, Vec3(x, y, z))] == GetVoxel(x, y, z)
      {
        PaddedIndexCoord(x, y, z);
      }
    }

    /** Mesh the chunk: the padded copy, meshed with the colours of the type
        table. Succeeds exactly when every face of the copy has a declared
        type, and then yields the copy's one greedy exact cover in sweep
        order (GreedyCoverUnique). */
    method GenerateMesh() returns (r: Result, ghost buf: seq<byte>, ghost quads: seq<Quad<Cell>>)
      requires Ready()
      ensures buf == Padded() && Mirrors(buf)
      ensures r.Ok? <==> PaletteCoversFaces(buf, Size, Palette())
      ensures r.Ok? ==> ExactCover(buf, Size, quads) && GreedyCover(buf, Size, quads) && SweepOrdered(quads)
      ensures r.Ok? ==> PaletteFits(quads, Palette()) && r.mesh == Emit(quads, Palette())
      ensures (forall k | 0 <= k < |buf| :: IsDeclared(buf[k])) ==> r.Ok?
      ensures (forall k | 0 <= k < |buf| :: buf[k] == Air) ==> r == Ok(EmptyMesh)
    {
      var paddedVoxels := BuildPaddedVoxels();
      buf := paddedVoxels[..];
      PaddedMirrors();
      label built:
      r, quads := GenerateMeshData(paddedVoxels, Size, Palette());
      ReadsUnchanged@built(this);
      if forall k | 0 <= k < |buf| :: IsDeclared(buf[k]) {
        DeclaredBufferMeshes(buf, Size, Palette());
      }
    }

    /** GenerateTerrainFromNoise: fill every local cell, column by column,
        with its TerrainCell. */
    method GenerateTerrainFromNoise(inputs: TerrainInputs)
      requires voxels.Length == Volume
      modifies voxels
      ensures forall x, y, z | InRange(x, y, z) ::
                voxels[VoxelIndex(x, y, z)] == TerrainCell(position, inputs, x, y, z)
    {
      for x := 0 to Size
        invariant TerrainBefore(voxels[..], position, inputs, x, 0, 0)
      {
        for z := 0 to Size
          invariant TerrainBefore(voxels[..], position, inputs, x, z, 0)
        {
          var worldVoxelX := position.x * 32 + x;
          var worldVoxelZ := position.z * 32 + z;
          var surfaceHeight := inputs.surfaceAt(worldVoxelX, worldVoxelZ);
          for y := 0 to Size
            invariant TerrainBefore(voxels[..], position, inputs, x, z, y)
          {
            ghost var before := voxels[..];
            ghost var cell := TerrainCell(position, inputs, x, y, z);
            TerrainStep(before, position, inputs, x, y, z);
            var worldVoxelY := position.y * 32 + y;
            if inputs.caveAt(worldVoxelX, worldVoxelY, worldVoxelZ) {
              SetVoxel(x, y, z, Air);
              assert voxels[..] == before[VoxelIndex(x, y, z) := cell];
              continue;
            }
            var voxelType := ClassifyCell(worldVoxelY, surfaceHeight, false);
            SetVoxel(x, y, z, voxelType);
            assert voxels[..] == before[VoxelIndex(x, y, z) := cell];
          }
          TerrainCarry(voxels[..], position, inputs, x, z);
        }
        TerrainCarry(voxels[..], position, inputs, x, Size);
      }
    }

    /** LoadChunkFromFile: there is no saved data yet. */
    function LoadChunkFromFile(): (loaded: bool)
      ensures !loaded
    {
      false
    }

    /** PrepareData: generate the terrain once. A chunk whose data is already
        generated is left as it is; otherwise it is filled from the inputs.
        Either way its data is generated afterwards, so a second call changes
        nothing. */
    method PrepareData(inputs: TerrainInputs)
      requires voxels.Length == Volume
      modifies this, voxels
      ensures IsDataGenerated()
      ensures old(IsDataGenerated()) ==> voxels[..] == old(voxels[..])
      ensures !old(IsDataGenerated()) ==> forall x, y, z | InRange(x, y, z) ::
                voxels[VoxelIndex(x, y, z)] == TerrainCell(position, inputs, x, y, z)
    {
      if isDataGenerated {
        return;
      }
      var loadedFromFile := LoadChunkFromFile();
      if !loadedFromFile {
        GenerateTerrainFromNoise(inputs);
      }
      isDataGenerated := true;
    }

    /** IsDataGenerated: whether PrepareData has run. */
    function IsDataGenerated(): bool
      reads this
    {
      isDataGenerated
    }
  }

  /** GetVoxel depends only on the world's chunk map and the voxel arrays
      of the chunks: while those stay unchanged, so does every read. */
  twostate lemma ReadsUnchanged(c: Chunk)
    requires old(c.Ready())
    requires c.world != null ==> unchanged(c.world)
    requires forall a | a in old(c.Footprint()) :: unchanged(a)
    ensures c.Ready()
    ensures forall x, y, z :: c.GetVoxel(x, y, z) == old(c.GetVoxel(x, y, z))
    ensures c.Padded() == old(c.Padded())
  {
  }

  /** The padded view depends only on what GetVoxel reads. */
  twostate lemma PaddedStill(c: Chunk)
    requires old(c.Ready())
    requires c.world != null ==> unchanged(c.world)
    requires forall a | a in old(c.Footprint()) :: unchanged(a)
    ensures c.Ready() && c.Padded() == old(c.Padded())
  {
    ReadsUnchanged(c);
  }

  /** A mirror of the chunk's reads stays one while the reads do. */
  twostate lemma MirrorsStill(c: Chunk)
    requires old(c.Ready())
    requires c.world != null ==> unchanged(c.world)
    requires forall a | a in old(c.Footprint()) :: unchanged(a)
    ensures forall buf | old(c.Mirrors(buf)) :: c.Mirrors(buf)
  {
    ReadsUnchanged(c);
  }

  /** A buffer holding only declared types meshes without a palette failure
      under the type table's colours. */
  lemma DeclaredBufferMeshes(buf: seq<byte>, size: nat, palette: seq<Color>)
    requires |buf| == Cube(size + 2) && |palette| == |Definitions|
    requires forall k | 0 <= k < |buf| :: IsDeclared(buf[k])
    ensures PaletteCoversFaces(buf, size, palette)
  {
  }
}
