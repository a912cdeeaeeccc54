/** The legacy chunk (ChunkData.cs): a 32^3 block of voxel bytes stored
    y-major, read through GetVoxel with the same neighbour resolution as the
    current chunk, filled by a three-band terrain generator and meshed by its
    own greedy extractor, which reads the voxels through GetVoxel and draws
    each merged rectangle as two triangles. */
module ChunkDataStore {
  import opened Geometry
  import opened VoxelTypes
  import opened SliceMerge
  import opened GreedyMesher
  import opened LegacyMesher
  import opened ChunkStore
  import opened SweepOrder

  /** The y-major storage index of local cell (x, y, z). */
  function DataIndex(x: int, y: int, z: int): int {
    y * 1024 + z * 32 + x
  }

  /** In range, the y-major index is a bijection onto [0, Volume): every
      cell has its own index in the block. */
  lemma DataIndexBijective(x: int, y: int, z: int, x': int, y': int, z': int)
    requires InRange(x, y, z) && InRange(x', y', z')
    ensures 0 <= DataIndex(x, y, z) < Volume
    ensures DataIndex(x, y, z) == DataIndex(x', y', z') ==> x == x' && y == y' && z == z'
  {
    Digits(y * 32 + z, x, 32);
    Digits(y, z, 32);
    Digits(y' * 32 + z', x', 32);
    Digits(y', z', 32);
  }

  /** The layer heights of the three-band terrain: Size / 3 and Size * 2 / 3. */
  const StoneLevel: int := Size / 3
  const DirtLevel: int := (Size * 2) / 3

  /** The type of a cell at local height y under a column whose surface is at
      `surface`: air above the surface, stone below StoneLevel, dirt between. */
  function DataLayer(y: int, surface: int): (t: byte)
    ensures IsDeclared(t)
    ensures IsSolid(t) <==> y <= surface
    ensures t == Stone <==> y <= surface && y < StoneLevel
    ensures t == Dirt <==> StoneLevel <= y <= surface
  {
    if y > surface then Air
    else if y < StoneLevel then Stone
    else Dirt
  }

  /** The type generated at local cell (x, y, z) of the chunk at `position`;
      `offsetAt` is the column's truncated noise offset `(int)(noise * 5)`. */
  function DataTerrainCell(position: Vec3, offsetAt: (int, int) -> int, x: int, y: int, z: int): byte {
    DataLayer(y, DirtLevel + offsetAt(x + position.x * 32, z + position.z * 32))
  }

  /** The generator compares the LOCAL height with the surface, so chunks
      stacked on one column get the same cells at every vertical position. */
  lemma DataTerrainRepeatsVertically(position: Vec3, position': Vec3, offsetAt: (int, int) -> int, x: int, y: int, z: int)
    requires position.x == position'.x && position.z == position'.z
    ensures DataTerrainCell(position, offsetAt, x, y, z) == DataTerrainCell(position', offsetAt, x, y, z)
  {
  }

  /** The voxels v hold their DataTerrainCell at every local cell the
      generator's x, z, y loops visit before (x, z, y). */
  ghost predicate DataTerrainBefore(v: seq<byte>, position: Vec3, offsetAt: (int, int) -> int, x: int, z: int, y: int) {
    && |v| == Volume
    && forall x', y', z' | InRange(x', y', z') && FilledFirst(x', z', y', x, z, y) ::
         v[DataIndex(x', y', z')] == DataTerrainCell(position, offsetAt, x', y', z')
  }

  /** Generating cell (x, y, z) extends the generated cells by one. */
  lemma DataTerrainStep(v: seq<byte>, position: Vec3, offsetAt: (int, int) -> int, x: int, y: int, z: int)
    requires InRange(x, y, z) && DataTerrainBefore(v, position, offsetAt, x, z, y)
    ensures 0 <= DataIndex(x, y, z) < |v|
    ensures DataTerrainBefore(v[DataIndex(x, y, z) := DataTerrainCell(position, offsetAt, x, y, z)], position, offsetAt, x, z, y + 1)
  {
    DataIndexBijective(x, y, z, x, y, z);
    var v' := v[DataIndex(x, y, z) := DataTerrainCell(position, offsetAt, x, y, z)];
    forall x', y', z' | InRange(x', y', z') && FilledFirst(x', z', y', x, z, y + 1)
      ensures v'[DataIndex(x', y', z')] == DataTerrainCell(position, offsetAt, x', y', z')
    {
      if x' != x || y' != y || z' != z {
        DataIndexBijective(x', y', z', x, y, z);
        assert FilledFirst(x', z', y', x, z, y);
      }
    }
  }

  /** A generated column carries on to the next column, and a generated
      slab of columns to the next slab. */
  lemma DataTerrainCarry(v: seq<byte>, position: Vec3, offsetAt: (int, int) -> int, x: int, z: int)
    ensures DataTerrainBefore(v, position, offsetAt, x, z, Size) ==> DataTerrainBefore(v, position, offsetAt, x, z + 1, 0)
    ensures DataTerrainBefore(v, position, offsetAt, x, Size, 0) ==> DataTerrainBefore(v, position, offsetAt, x + 1, 0, 0)
  {
  }

  /** World.VoxelChunks as the legacy chunks see it. */
  class World {
    var chunks: map<Vec3, ChunkData>
    /** The voxel arrays of the chunks of the map. */
    ghost var storage: set<array<byte>>

    constructor()
      ensures chunks == map[] && storage == {}
    {
      chunks := map[];
      storage := {};
    }

    /** Every chunk of the map belongs to this world and has a full block. */
    ghost predicate Valid()
      reads this
    {
      forall p | p in chunks :: chunks[p].world == this && chunks[p].voxels.Length == Volume && chunks[p].voxels in storage
    }
  }

  class ChunkData {
    const position: Vec3
    const world: World
    const voxels: array<byte>

    /** A new chunk: all Air. */
    constructor(world: World, position: Vec3)
      ensures this.world == world && this.position == position
      ensures fresh(voxels) && voxels.Length == Volume && forall k | 0 <= k < Volume :: voxels[k] == Air
    {
      this.world := world;
      this.position := position;
      voxels := new byte[Volume](_ => Air);
    }

    /** The chunk has its full block and its world is valid. */
    ghost predicate Ready()
      reads world
    {
      voxels.Length == Volume && world.Valid()
    }

    /** The voxel arrays GetVoxel may read. */
    ghost function Footprint(): set<array<byte>>
      reads world
    {
      {voxels} + world.storage
    }

    /** The voxel at local coordinate (x, y, z): the stored cell when it is
        in range; otherwise the cell of the chunk that owns the world
        coordinate, or Air when the world's map has no such chunk. */
    function GetVoxel(x: int, y: int, z: int): byte
      requires Ready()
      reads world, Footprint()
      decreases if InRange(x, y, z) then 0 else 1
    {
      if InRange(x, y, z) then
        voxels[DataIndex(x, y, z)]
      else
        var w := WorldOf(position, x, y, z);
        var n := OwnerOf(w);
        if n in world.chunks then
          var l := LocalOf(w);
          world.chunks[n].GetVoxel(l.x, l.y, l.z)
        else
          Air
    }

    /** Outside the block, GetVoxel takes one hop to the stored cell of
        another chunk, or returns Air. */
    lemma OutOfRangeRead(x: int, y: int, z: int)
      requires Ready() && !InRange(x, y, z)
      ensures var w := WorldOf(position, x, y, z);
        && OwnerOf(w) != position
        && InRange(LocalOf(w).x, LocalOf(w).y, LocalOf(w).z)
        && GetVoxel(x, y, z)
           == if OwnerOf(w) in world.chunks
              then world.chunks[OwnerOf(w)].voxels[DataIndex(LocalOf(w).x, LocalOf(w).y, LocalOf(w).z)]
              else Air
    {
      NeighbourIsOther(position, x, y, z);
      ResolveWorld(WorldOf(position, x, y, z));
    }

    /** Write the cell at storage index y*S*S + z*S + x. The source checks
        only that the index lies in the array. */
    method SetVoxel(x: int, y: int, z: int, value: byte)
      requires voxels.Length == Volume && 0 <= DataIndex(x, y, z) < Volume
      modifies voxels
      ensures voxels[..] == old(voxels[..])[DataIndex(x, y, z) := value]
      ensures Ready() ==> InRange(x, y, z) ==> GetVoxel(x, y, z) == value
    {
      voxels[DataIndex(x, y, z)] := value;
    }

    /** GenerateTerrain: fill every local cell, column by column, with its
        DataTerrainCell. */
    method GenerateTerrain(offsetAt: (int, int) -> int)
      requires voxels.Length == Volume
      modifies voxels
      ensures forall x, y, z | InRange(x, y, z) ::
                voxels[DataIndex(x, y, z)] == DataTerrainCell(position, offsetAt, x, y, z)
    {
      var stoneLevel := Size / 3;
      var dirtLevel := (Size * 2) / 3;
      for x := 0 to Size
        invariant DataTerrainBefore(voxels[..], position, offsetAt, x, 0, 0)
      {
        for z := 0 to Size
          invariant DataTerrainBefore(voxels[..], position, offsetAt, x, z, 0)
        {
          var worldX := x + position.x * 32;
          var worldZ := z + position.z * 32;
          var surfaceHeight := dirtLevel + offsetAt(worldX, worldZ);
          for y := 0 to Size
            invariant DataTerrainBefore(voxels[..], position, offsetAt, x, z, y)
          {
            ghost var before := voxels[..];
            ghost var cell := DataTerrainCell(position, offsetAt, x, y, z);
            DataTerrainStep(before, position, offsetAt, x, y, z);
            if y > surfaceHeight {
              SetVoxel(x, y, z, Air);
            } else if y < stoneLevel {
              SetVoxel(x, y, z, Stone);
            } else {
              SetVoxel(x, y, z, Dirt);
            }
            assert voxels[..] == before[DataIndex(x, y, z) := cell];
          }
          DataTerrainCarry(voxels[..], position, offsetAt, x, z);
        }
        DataTerrainCarry(voxels[..], position, offsetAt, x, Size);
      }
    }

    /** The padded view of everything the mesher reads: cell k holds the
        voxel GetVoxel returns for chunk cell PaddedCoord(k). */
    ghost function Padded(): (buf: seq<byte>)
      requires Ready()
      reads world, Footprint()
      ensures |buf| == PaddedVolume
      ensures forall k {:trigger PaddedCoord(k)} | 0 <= k < PaddedVolume ::
        buf[k] == GetVoxel(PaddedCoord(k).x, PaddedCoord(k).y, PaddedCoord(k).z)
    {
      seq<byte>(PaddedVolume, k requires Ready() reads world, Footprint() =>
        GetVoxel(PaddedCoord(k).x, PaddedCoord(k).y, PaddedCoord(k).z))
    }

    /** The padded view holds GetVoxel(x - 1, y - 1, z - 1) at the offset of
        padded cell (x, y, z). */
    lemma PaddedAt(x: int, y: int, z: int)
      requires Ready() && 0 <= x < PaddedSize && 0 <= y < PaddedSize && 0 <= z < PaddedSize
      ensures Padded()[PaddedOffset(x, y, z)] == GetVoxel(x - 1, y - 1, z - 1)
    {
      PaddedOffsetDigits(x, y, z);
    }

    /** buf holds, at the mesher's index of every cell the mesher reads, the
        voxel GetVoxel returns for it. */
    ghost predicate Mirrors(buf: seq<byte>)
      reads world, Footprint()
    {
      && Ready() && |buf| == Cube(Size + 2)
      && forall x, y, z {:trigger PaddedIndex(Size, Vec3(x, y, z))}
           | -1 <= x <= Size && -1 <= y <= Size && -1 <= z <= Size ::
           buf[PaddedIndex(Size, Vec3(x, y, z))] == GetVoxel(x, y, z)
    }

    /** The mirror at one point the mesher reads. */
    lemma MirrorsAt(buf: seq<byte>, p: Vec3)
      requires Mirrors(buf) && -1 <= p.x <= Size && -1 <= p.y <= Size && -1 <= p.z <= Size
      ensures 0 <= PaddedIndex(Size, p) < |buf| && buf[PaddedIndex(Size, p)] == GetVoxel(p.x, p.y, p.z)
    {
      var x, y, z := p.x, p.y, p.z;
      assert p == Vec3(x, y, z);
    }

    /** The padded view holds, at the mesher's index of cell (x, y, z), the
        voxel GetVoxel returns for it. */
    lemma PaddedMirrorsAt(x: int, y: int, z: int)
      requires Ready() && -1 <= x <= Size && -1 <= y <= Size && -1 <= z <= Size
      ensures 0 <= PaddedIndex(Size, Vec3(x, y, z)) < |Padded()|
      ensures Padded()[PaddedIndex(Size, Vec3(x, y, z))] == GetVoxel(x, y, z)
    {
      PaddedIndexCoord(x, y, z);
    }

    /** The padded view mirrors the chunk's reads. */
    lemma PaddedMirrors()
      requires Ready()
      ensures Mirrors(Padded())
    {
      forall x, y, z | -1 <= x <= Size && -1 <= y <= Size && -1 <= z <= Size
        ensures Padded()[PaddedIndex(Size, Vec3(x, y, z))] == GetVoxel(x, y, z)
      {
        PaddedMirrorsAt(x, y, z);
      }
    }

    // -------------------------------------------------------------------------
    // GenerateMesh

    /** The mask cell at (u, v) of slice `plane` along `axis`: the voxel at
        the cursor and the one a step further along the axis are read; the
        cell is 0 when both or neither are solid, else the solid one's type. */
    method LegacyMaskCell(axis: Axis, plane: int, u: int, v: int, ghost buf: seq<byte>) returns (t: byte)
      requires Mirrors(buf) && -1 <= plane < Size && 0 <= u < Size && 0 <= v < Size
      ensures t == LegacyFaceAt(buf, Size, axis, plane, u, v)
    {
      var x := SliceCoord(axis, plane, u, v);
      var dir := Unit(axis);
      var type1 := GetVoxel(x.x, x.y, x.z);
      var type2 := GetVoxel(x.x + dir.x, x.y + dir.y, x.z + dir.z);
      assert type1 == buf[NearIndex(Size, axis, plane, u, v)] by {
        SliceCoordBounds(axis, plane, u, v, -1, Size);
        MirrorsAt(buf, x);
      }
      assert type2 == buf[FarIndex(Size, axis, plane, u, v)] by {
        var y := Vec3(x.x + dir.x, x.y + dir.y, x.z + dir.z);
        SliceCoordStep(axis, plane, u, v);
        assert y == SliceCoord(axis, plane + 1, u, v);
        SliceCoordBounds(axis, plane + 1, u, v, -1, Size);
        MirrorsAt(buf, y);
      }
      var solid1 := type1 != 0;
      var solid2 := type2 != 0;
      if solid1 == solid2 {
        t := 0;
      } else if solid1 {
        t := type1;
      } else {
        t := type2;
      }
    }

    /** Step 1: the mask of slice `plane` along `axis`, cell (u, v) at
        n = v * Size + u. */
    method BuildLegacyMask(axis: Axis, plane: int, mask: array<byte>, ghost buf: seq<byte>)
      requires Mirrors(buf) && mask !in Footprint()
      requires mask.Length == Size * Size && -1 <= plane < Size
      modifies mask
      ensures Mirrors(buf)
      ensures forall u, v | 0 <= u < Size && 0 <= v < Size ::
                At(mask[..], Size, u, v) == LegacyFaceAt(buf, Size, axis, plane, u, v)
    {
      var n := 0;
      for v := 0 to Size
        invariant n == RowStart(Size, v)
        invariant MaskBefore(mask[..], buf, axis, plane, 0, v)
      {
        for u := 0 to Size
          invariant n == RowStart(Size, v) + u
          invariant MaskBefore(mask[..], buf, axis, plane, u, v)
        {
          DataMirrorsStill(this);
          var t := LegacyMaskCell(axis, plane, u, v, buf);
          MaskStep(mask[..], buf, axis, plane, u, v);
          mask[n] := t;
          n := n + 1;
        }
        MaskCarry(mask[..], buf, axis, plane, v);
      }
      DataMirrorsStill(this);
    }

    /** One quad of the merge at a face cell (i, j): find its width and
        height, test for a back face, add its six vertices in its type's
        colour, and clear its rectangle. */
    method LegacyEmitQuadAt(mask: array<byte>, axis: Axis, plane: int, i: nat, j: nat, n: int, mesh0: LegacyMesh,
                            ghost buf: seq<byte>, ghost m0: seq<byte>, ghost before: seq<Quad<byte>>,
                            ghost sq0: seq<Quad<byte>>)
      returns (w: nat, mesh: LegacyMesh, ghost q: Quad<byte>)
      requires Mirrors(buf) && mask !in Footprint()
      requires mask.Length == Size * Size && -1 <= plane < Size && i < Size && j < Size && n == RowStart(Size, j) + i
      requires Scanned(m0, mask[..], sq0, Size, axis, plane, 0, i, j)
      requires At(mask[..], Size, i, j) != 0
      requires InSlices(before + sq0, Size) && mesh0 == LegacyEmit(buf, Size, before + sq0)
      modifies mask
      ensures Mirrors(buf)
      ensures 1 <= w && i + w <= Size
      ensures q == Quad(axis, plane, Rect(i, j, w, q.rect.h), At(m0, Size, i, j)) && Fits(q.rect, Size)
      ensures w == RowRun(old(mask[..]), Size, i, j, q.face)
      ensures GreedyQuad(MaskCells(m0, Size, 0), sq0, q, Size, 0)
      ensures Scanned(m0, mask[..], sq0 + [q], Size, axis, plane, 0, i + w, j)
      ensures InSlices(before + (sq0 + [q]), Size) && mesh == LegacyEmit(buf, Size, before + (sq0 + [q]))
    {
      ghost var m := mask[..];
      var quad := ChooseQuad(mask, Size, axis, plane, i, j, n, 0, m0, m, sq0);
      w := quad.rect.w;
      q := quad;
      DataMirrorsStill(this);
      mesh := LegacyDrawQuad(quad, mesh0, buf, before, sq0);
      assert mask[..] == m;
      ClearDrawnQuad(mask, quad, n, buf, m0, m, sq0);
    }

    /** Clearing a drawn quad from the mask leaves the chunk's reads as they
        were. */
    method ClearDrawnQuad(mask: array<byte>, q: Quad<byte>, n: int, ghost buf: seq<byte>, ghost m0: seq<byte>,
                          ghost m: seq<byte>, ghost sq0: seq<Quad<byte>>)
      requires Mirrors(buf) && mask !in Footprint()
      requires mask.Length == Size * Size && Fits(q.rect, Size) && n == RowStart(Size, q.rect.j) + q.rect.i
      requires mask[..] == m
      requires Scanned(m0, m, sq0, Size, q.axis, q.plane, 0, q.rect.i, q.rect.j) && q.face != 0
      requires forall u, v | 0 <= u < Size && 0 <= v < Size && InRect(q.rect, u, v) :: At(m, Size, u, v) == q.face
      modifies mask
      ensures Mirrors(buf)
      ensures Scanned(m0, mask[..], sq0 + [q], Size, q.axis, q.plane, 0, q.rect.i + q.rect.w, q.rect.j)
    {
      LegacyClearQuad(mask, q, n, m0, m, sq0);
      DataMirrorsStill(this);
    }

    /** Draw one merged rectangle: the back-face test on the voxel one step
        past its first cell, its colour, and its two triangles, six vertices
        and six colours appended to the SurfaceTool. */
    method LegacyDrawQuad(q: Quad<byte>, mesh0: LegacyMesh, ghost buf: seq<byte>, ghost before: seq<Quad<byte>>,
                          ghost sq0: seq<Quad<byte>>) returns (mesh: LegacyMesh)
      requires Mirrors(buf) && -1 <= q.plane < Size && Fits(q.rect, Size)
      requires InSlices(before + sq0, Size) && mesh0 == LegacyEmit(buf, Size, before + sq0)
      ensures Mirrors(buf)
      ensures var b := LegacyQuadMesh(buf, Size, q);
        mesh == LegacyMesh(mesh0.vertices + b.vertices, mesh0.colors + b.colors)
      ensures InSlices(before + (sq0 + [q]), Size) && mesh == LegacyEmit(buf, Size, before + (sq0 + [q]))
    {
      var x := SliceCoord(q.axis, q.plane + 1, q.rect.i, q.rect.j);
      var backFace := GetVoxel(x.x, x.y, x.z) == 0;
      var color := LegacyColor(q.face);
      var added := LegacyTriangles(q, backFace);
      mesh := LegacyMesh(mesh0.vertices + added, mesh0.colors + [color, color, color, color, color, color]);
      FarVoxel(buf, q);
      LegacyAppendQuad(buf, Size, before, sq0, q, mesh0);
    }

    /** The back-face test reads, through GetVoxel, the padded cell one step
        past the quad's first cell. */
    lemma FarVoxel(buf: seq<byte>, q: Quad<byte>)
      requires Mirrors(buf) && -1 <= q.plane < Size && Fits(q.rect, Size)
      ensures var x, k := SliceCoord(q.axis, q.plane + 1, q.rect.i, q.rect.j), FarIndex(Size, q.axis, q.plane, q.rect.i, q.rect.j);
        0 <= k < |buf| && buf[k] == GetVoxel(x.x, x.y, x.z)
    {
      var x := SliceCoord(q.axis, q.plane + 1, q.rect.i, q.rect.j);
      SliceCoordBounds(q.axis, q.plane + 1, q.rect.i, q.rect.j, -1, Size);
      MirrorsAt(buf, x);
    }

    /** The merge scan of row j: a quad for every face cell not yet cleared. */
    method LegacyMergeRow(mask: array<byte>, axis: Axis, plane: int, j: nat, n0: int, mesh0: LegacyMesh,
                          ghost buf: seq<byte>, ghost m0: seq<byte>, ghost before: seq<Quad<byte>>,
                          ghost sq0: seq<Quad<byte>>)
      returns (n: int, mesh: LegacyMesh, ghost sq: seq<Quad<byte>>)
      requires Mirrors(buf) && mask !in Footprint()
      requires mask.Length == Size * Size && -1 <= plane < Size && j < Size && n0 == RowStart(Size, j)
      requires Scanned(m0, mask[..], sq0, Size, axis, plane, 0, 0, j)
      requires Greedy(MaskCells(m0, Size, 0), sq0, Size, 0)
      requires InSlices(before + sq0, Size) && mesh0 == LegacyEmit(buf, Size, before + sq0)
      modifies mask
      ensures Mirrors(buf)
      ensures n == RowStart(Size, j + 1) && Scanned(m0, mask[..], sq, Size, axis, plane, 0, 0, j + 1)
      ensures Greedy(MaskCells(m0, Size, 0), sq, Size, 0)
      ensures InSlices(before + sq, Size) && mesh == LegacyEmit(buf, Size, before + sq)
    {
      n, mesh, sq := n0, mesh0, sq0;
      var i := 0;
      while i < Size
        invariant 0 <= i <= Size && n == RowStart(Size, j) + i
        invariant Mirrors(buf)
        invariant Scanned(m0, mask[..], sq, Size, axis, plane, 0, i, j)
        invariant Greedy(MaskCells(m0, Size, 0), sq, Size, 0)
        invariant InSlices(before + sq, Size) && mesh == LegacyEmit(buf, Size, before + sq)
        decreases Size - i
      {
        CellIndexBound(Size, i, j);
        assert mask[n] == At(mask[..], Size, i, j);
        var currentType := mask[n];
        if currentType != 0 {
          var w;
          ghost var q;
          w, mesh, q := LegacyEmitQuadAt(mask, axis, plane, i, j, n, mesh, buf, m0, before, sq);
          GreedyAppend(MaskCells(m0, Size, 0), sq, q, Size, 0);
          sq := sq + [q];
          i := i + w;
          n := n + w;
        } else {
          ScannedSkip(m0, mask[..], sq, Size, axis, plane, 0, i, j);
          i := i + 1;
          n := n + 1;
        }
      }
      ScannedNextRow(m0, mask[..], sq, Size, axis, plane, 0, j);
    }

    /** The merge scan of one slice: the new quads cover every face of the
        mask exactly once, each over cells of its own type. */
    method LegacyMergeSlice(mask: array<byte>, axis: Axis, plane: int, mesh0: LegacyMesh,
                            ghost buf: seq<byte>, ghost before: seq<Quad<byte>>)
      returns (mesh: LegacyMesh, ghost sq: seq<Quad<byte>>)
      requires Mirrors(buf) && mask !in Footprint()
      requires mask.Length == Size * Size && -1 <= plane < Size
      requires InSlices(before, Size) && mesh0 == LegacyEmit(buf, Size, before)
      modifies mask
      ensures Mirrors(buf)
      ensures InSlices(before + sq, Size) && mesh == LegacyEmit(buf, Size, before + sq)
      ensures forall k | 0 <= k < |sq| ::
                sq[k].axis == axis && sq[k].plane == plane && Fits(sq[k].rect, Size) && sq[k].face != 0
      ensures forall u, v | 0 <= u < Size && 0 <= v < Size ::
                CoverCount(sq, axis, plane, u, v) == if At(old(mask[..]), Size, u, v) != 0 then 1 else 0
      ensures forall k, u, v | 0 <= k < |sq| && 0 <= u < Size && 0 <= v < Size && InRect(sq[k].rect, u, v) ::
                At(old(mask[..]), Size, u, v) == sq[k].face
      ensures Greedy(MaskCells(old(mask[..]), Size, 0), sq, Size, 0)
    {
      ghost var m0 := mask[..];
      mesh, sq := LegacyMergeRows(mask, axis, plane, mesh0, buf, m0, before);
      ScannedFinished(m0, mask[..], sq, Size, axis, plane, 0);
    }

    /** The row loop of the merge scan: every row of the mask scanned. */
    method LegacyMergeRows(mask: array<byte>, axis: Axis, plane: int, mesh0: LegacyMesh,
                           ghost buf: seq<byte>, ghost m0: seq<byte>, ghost before: seq<Quad<byte>>)
      returns (mesh: LegacyMesh, ghost sq: seq<Quad<byte>>)
      requires Mirrors(buf) && mask !in Footprint()
      requires mask.Length == Size * Size && -1 <= plane < Size && mask[..] == m0
      requires InSlices(before, Size) && mesh0 == LegacyEmit(buf, Size, before)
      modifies mask
      ensures Mirrors(buf)
      ensures Scanned(m0, mask[..], sq, Size, axis, plane, 0, 0, Size)
      ensures Greedy(MaskCells(m0, Size, 0), sq, Size, 0)
      ensures InSlices(before + sq, Size) && mesh == LegacyEmit(buf, Size, before + sq)
    {
      mesh, sq := mesh0, [];
      assert before + sq == before;
      var n := 0;
      for j := 0 to Size
        invariant n == RowStart(Size, j)
        invariant Mirrors(buf)
        invariant Scanned(m0, mask[..], sq, Size, axis, plane, 0, 0, j)
        invariant Greedy(MaskCells(m0, Size, 0), sq, Size, 0)
        invariant InSlices(before + sq, Size) && mesh == LegacyEmit(buf, Size, before + sq)
      {
        n, mesh, sq := LegacyMergeRow(mask, axis, plane, j, n, mesh, buf, m0, before, sq);
      }
    }

    /** One slice of the sweep: build its mask, then merge it. */
    method LegacySweepSlice(axis: Axis, plane: int, mask: array<byte>, mesh0: LegacyMesh,
                            ghost buf: seq<byte>, ghost qs: seq<Quad<byte>>)
      returns (mesh: LegacyMesh, ghost qs': seq<Quad<byte>>)
      requires Mirrors(buf) && mask !in Footprint()
      requires mask.Length == Size * Size && -1 <= plane < Size
      requires LegacyProgress(buf, Size, qs, axis, plane) && LegacyGreedyCover(buf, Size, qs) && SweepOrdered(qs)
      requires InSlices(qs, Size) && mesh0 == LegacyEmit(buf, Size, qs)
      modifies mask
      ensures Mirrors(buf)
      ensures LegacyProgress(buf, Size, qs', axis, plane + 1) && LegacyGreedyCover(buf, Size, qs')
      ensures InSlices(qs', Size) && mesh == LegacyEmit(buf, Size, qs')
      ensures SweepOrdered(qs') && ExtendsOnAxis(qs, qs', axis)
      ensures forall k | |qs| <= k < |qs'| :: qs'[k].plane == plane
    {
      BuildLegacyMask(axis, plane, mask, buf);
      ghost var m0 := mask[..];
      assert LegacyMaskOf(m0, buf, Size, axis, plane);
      ghost var sq;
      mesh, sq := LegacyMergeSlice(mask, axis, plane, mesh0, buf, qs);
      LegacySliceStep(buf, Size, qs, sq, axis, plane, m0);
      qs' := qs + sq;
      assert qs'[..|qs|] == qs;
    }

    /** GenerateMesh: the SurfaceTool contents are the quads of an exact
        cover of the legacy faces of the chunk's reads, each drawn as two
        triangles wound by its first cell, in sweep order, axis by axis and
        plane by plane, which makes them the one greedy legacy cover of the
        reads (LegacyCoverUnique). A chunk that reads only Air draws
        nothing. */
    method GenerateMesh() returns (mesh: LegacyMesh, ghost buf: seq<byte>, ghost quads: seq<Quad<byte>>)
      requires Ready()
      ensures buf == Padded() && Mirrors(buf)
      ensures LegacyCover(buf, Size, quads) && LegacyGreedyCover(buf, Size, quads) && SweepOrdered(quads)
      ensures InSlices(quads, Size) && mesh == LegacyEmit(buf, Size, quads)
      ensures |mesh.vertices| == |mesh.colors|
      ensures (forall k | 0 <= k < |buf| :: buf[k] == Air) ==> mesh == LegacyMesh([], [])
    {
      buf := Padded();
      PaddedMirrors();
      mesh, quads := LegacySweep(buf);
      DataReadsUnchanged(this);
      LegacyCoverMesh(buf, Size, quads, mesh);
    }

    /** The sweep of GenerateMesh over the three axes, planes -1 .. Size-1
        of each, one mask per axis. */
    method LegacySweep(ghost buf: seq<byte>) returns (mesh: LegacyMesh, ghost quads: seq<Quad<byte>>)
      requires Mirrors(buf)
      ensures LegacyCover(buf, Size, quads) && LegacyGreedyCover(buf, Size, quads) && SweepOrdered(quads)
      ensures InSlices(quads, Size) && mesh == LegacyEmit(buf, Size, quads)
    {
      mesh, quads := LegacyMesh([], []), [];
      LegacyProgressStart(buf, Size);
      for axis := 0 to 3
        invariant Mirrors(buf)
        invariant LegacyProgress(buf, Size, quads, axis, -1)
        invariant LegacyGreedyCover(buf, Size, quads) && SweepOrdered(quads)
        invariant InSlices(quads, Size) && mesh == LegacyEmit(buf, Size, quads)
      {
        mesh, quads := LegacySweepAxis(axis, mesh, buf, quads);
      }
      LegacyProgressFinished(buf, Size, quads);
    }

    /** The sweep along one axis: slices -1 .. Size-1, sharing one mask. */
    method LegacySweepAxis(axis: Axis, mesh0: LegacyMesh, ghost buf: seq<byte>, ghost qs: seq<Quad<byte>>)
      returns (mesh: LegacyMesh, ghost qs': seq<Quad<byte>>)
      requires Mirrors(buf)
      requires LegacyProgress(buf, Size, qs, axis, -1) && LegacyGreedyCover(buf, Size, qs) && SweepOrdered(qs)
      requires InSlices(qs, Size) && mesh0 == LegacyEmit(buf, Size, qs)
      ensures Mirrors(buf)
      ensures LegacyProgress(buf, Size, qs', axis + 1, -1) && LegacyGreedyCover(buf, Size, qs')
      ensures InSlices(qs', Size) && mesh == LegacyEmit(buf, Size, qs')
      ensures SweepOrdered(qs') && ExtendsOnAxis(qs, qs', axis)
    {
      mesh, qs' := mesh0, qs;
      var mask := new byte[Size * Size];
      DataMirrorsStill(this);
      for plane := -1 to Size
        invariant Mirrors(buf)
        invariant LegacyProgress(buf, Size, qs', axis, plane)
        invariant LegacyGreedyCover(buf, Size, qs')
        invariant InSlices(qs', Size) && mesh == LegacyEmit(buf, Size, qs')
        invariant SweepOrdered(qs') && ExtendsOnAxis(qs, qs', axis)
      {
        ghost var before := qs';
        mesh, qs' := LegacySweepSlice(axis, plane, mask, mesh, buf, qs');
        ExtendsOnAxisTrans(qs, before, qs', axis);
      }
      LegacyProgressNextAxis(buf, Size, qs', axis);
    }
  }

  /** Clear the cells of a drawn quad from the mask, which records the quad
      as emitted by the merge scan. */
  method LegacyClearQuad(mask: array<byte>, q: Quad<byte>, n: int, ghost m0: seq<byte>, ghost m: seq<byte>,
                         ghost sq0: seq<Quad<byte>>)
    requires mask.Length == Size * Size && Fits(q.rect, Size) && n == RowStart(Size, q.rect.j) + q.rect.i
    requires mask[..] == m
    requires Scanned(m0, m, sq0, Size, q.axis, q.plane, 0, q.rect.i, q.rect.j) && q.face != 0
    requires forall u, v | 0 <= u < Size && 0 <= v < Size && InRect(q.rect, u, v) :: At(m, Size, u, v) == q.face
    modifies mask
    ensures Scanned(m0, mask[..], sq0 + [q], Size, q.axis, q.plane, 0, q.rect.i + q.rect.w, q.rect.j)
  {
    ClearRect(mask, Size, q.rect, n, 0);
    ScannedEmit(m0, m, mask[..], sq0, Size, q.axis, q.plane, 0, q.rect.i, q.rect.j, q.rect.w, q.rect.h, q.face);
  }

  /** The mask m holds the legacy face of every cell the mask loops visit
      before (u, v): the rows below v and the first u cells of row v. */
  ghost predicate MaskBefore(m: seq<byte>, buf: seq<byte>, axis: Axis, plane: int, u: int, v: int) {
    && |m| == Size * Size && |buf| == Cube(Size + 2) && -1 <= plane < Size
    && forall u', v' | 0 <= u' < Size && 0 <= v' < Size && (v' < v || (v' == v && u' < u)) ::
         At(m, Size, u', v') == LegacyFaceAt(buf, Size, axis, plane, u', v')
  }

  /** Writing the face of cell (u, v) at its index extends the mask by one. */
  lemma MaskStep(m: seq<byte>, buf: seq<byte>, axis: Axis, plane: int, u: int, v: int)
    requires 0 <= u < Size && 0 <= v < Size && MaskBefore(m, buf, axis, plane, u, v)
    ensures 0 <= RowStart(Size, v) + u < |m|
    ensures MaskBefore(m[RowStart(Size, v) + u := LegacyFaceAt(buf, Size, axis, plane, u, v)], buf, axis, plane, u + 1, v)
  {
    CellIndexBound(Size, u, v);
    var m' := m[RowStart(Size, v) + u := LegacyFaceAt(buf, Size, axis, plane, u, v)];
    forall u', v' | 0 <= u' < Size && 0 <= v' < Size && (v' < v || (v' == v && u' < u + 1))
      ensures At(m', Size, u', v') == LegacyFaceAt(buf, Size, axis, plane, u', v')
    {
      MaskCellStep(m, buf, axis, plane, u, v, u', v');
    }
  }

  /** One cell of the extended mask: the written cell, or an earlier one kept. */
  lemma MaskCellStep(m: seq<byte>, buf: seq<byte>, axis: Axis, plane: int, u: int, v: int, u': int, v': int)
    requires 0 <= u < Size && 0 <= v < Size && MaskBefore(m, buf, axis, plane, u, v)
    requires 0 <= u' < Size && 0 <= v' < Size && (v' < v || (v' == v && u' <= u))
    ensures 0 <= RowStart(Size, v) + u < |m|
    ensures At(m[RowStart(Size, v) + u := LegacyFaceAt(buf, Size, axis, plane, u, v)], Size, u', v')
            == LegacyFaceAt(buf, Size, axis, plane, u', v')
  {
    CellIndexBound(Size, u, v);
    if u' != u || v' != v {
      AtUpdateOther(m, Size, u, v, LegacyFaceAt(buf, Size, axis, plane, u, v), u', v');
    }
  }

  /** A finished mask row carries on to the next row. */
  lemma MaskCarry(m: seq<byte>, buf: seq<byte>, axis: Axis, plane: int, v: int)
    ensures MaskBefore(m, buf, axis, plane, Size, v) ==> MaskBefore(m, buf, axis, plane, 0, v + 1)
  {
  }

  /** Appending one quad to the quads emitted so far appends its mesh. */
  lemma LegacyAppendQuad(buf: seq<byte>, size: nat, before: seq<Quad<byte>>, sq0: seq<Quad<byte>>, q: Quad<byte>,
                         mesh0: LegacyMesh)
    requires |buf| == Cube(size + 2) && InSlices(before + sq0, size) && -1 <= q.plane < size && Fits(q.rect, size)
    requires mesh0 == LegacyEmit(buf, size, before + sq0)
    ensures InSlices(before + (sq0 + [q]), size)
    ensures var b := LegacyQuadMesh(buf, size, q);
      LegacyEmit(buf, size, before + (sq0 + [q])) == LegacyMesh(mesh0.vertices + b.vertices, mesh0.colors + b.colors)
  {
    LegacyEmitAppend(buf, size, before + sq0, q);
    assert before + (sq0 + [q]) == (before + sq0) + [q];
  }

  /** GetVoxel depends only on the world's chunk map and the voxel arrays of
      the chunks: while those stay unchanged, so does every read. */
  twostate lemma DataReadsUnchanged(c: ChunkData)
    requires old(c.Ready())
    requires unchanged(c.world)
    requires unchanged(old(c.Footprint()))
    ensures c.Ready()
    ensures forall x, y, z :: c.GetVoxel(x, y, z) == old(c.GetVoxel(x, y, z))
    ensures c.Padded() == old(c.Padded())
  {
  }

  /** A mirror of the chunk's reads stays one while the reads do. */
  twostate lemma DataMirrorsStill(c: ChunkData)
    requires old(c.Ready())
    requires unchanged(c.world)
    requires unchanged(old(c.Footprint()))
    ensures forall buf | old(c.Mirrors(buf)) :: c.Mirrors(buf)
  {
    DataReadsUnchanged(c);
  }
}
