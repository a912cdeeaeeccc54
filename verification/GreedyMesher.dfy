/** The current greedy surface extractor (GreedyMesher.GenerateMeshData): a
    padded (size+2)^3 voxel buffer in z-major layout becomes four parallel
    lists of vertices, normals, colours and triangle indices. For each axis it
    sweeps size+1 planes, builds a size x size mask of (type, forwardFace)
    cells per plane, merges equal cells row by row into rectangles and emits
    one quad per rectangle. */
module GreedyMesher {
  import opened Geometry
  import opened VoxelTypes
  import opened SliceMerge
  import opened SweepOrder

  /** A mask cell: the type of the solid voxel that owns the face and whether
      the face looks along +axis. */
  datatype Cell = Cell(voxel: byte, forwardFace: bool)

  /** The cell of a mask position with no face, the value cleared cells get. */
  const NoFace := Cell(0, false)

  /** MeshData: four parallel lists. */
  datatype MeshData = MeshData(vertices: seq<Vec3>, normals: seq<Vec3>, colors: seq<Color>, indices: seq<int>)

  const EmptyMesh := MeshData([], [], [], [])

  /** The one way meshing fails: `palette[type]` with a type id the palette
      does not have (an IndexOutOfRangeException in the source). */
  datatype MeshError = PaletteIndexOutOfRange(voxel: byte)

  datatype Result = Ok(mesh: MeshData) | Err(error: MeshError)

  /** n * n, counted as n rows of n. */
  function Square(n: nat): nat { RowStart(n, n) }

  /** n * n * n, counted as n layers of n * n: the length of a padded buffer. */
  function Cube(n: nat): nat { RowStart(Square(n), n) }

  /** Square and Cube are the products they name. */
  lemma CubeIsProduct(n: nat)
    ensures Square(n) == n * n && Cube(n) == n * (n * n)
  {
    RowOffset(n, 0, n);
    RowOffset(Square(n), 0, n);
  }

  /** Position of padded cell (x, y, z) in the z-major buffer:
      z * P * P + y * P + x with P = size + 2, each product counted in rows. */
  function Idx(size: nat, x: int, y: nat, z: nat): int {
    var p := size + 2;
    RowStart(Square(p), z) + RowStart(p, y) + x
  }

  /** Idx is the source's arithmetic expression. */
  lemma IdxIsProduct(size: nat, x: int, y: nat, z: nat)
    ensures var p := size + 2; Idx(size, x, y, z) == z * (p * p) + y * p + x
  {
    var p := size + 2;
    CubeIsProduct(p);
    RowOffset(Square(p), 0, z);
    RowOffset(p, 0, y);
  }

  /** Every padded cell has its own position inside the buffer. */
  lemma IdxInBounds(size: nat, x: int, y: int, z: int)
    requires 0 <= x < size + 2 && 0 <= y < size + 2 && 0 <= z < size + 2
    ensures 0 <= Idx(size, x, y, z) < Cube(size + 2)
  {
    var p := size + 2;
    RowStartMonotone(p, y, p);
    RowStartMonotone(Square(p), z, p);
  }

  /** The buffer position of the voxel at chunk coordinate x, whose padded
      coordinate is x + 1 on every axis. */
  function PaddedIndex(size: nat, x: Vec3): (k: int)
    requires -1 <= x.x <= size && -1 <= x.y <= size && -1 <= x.z <= size
    ensures 0 <= k < Cube(size + 2)
  {
    IdxInBounds(size, x.x + 1, x.y + 1, x.z + 1);
    Idx(size, x.x + 1, x.y + 1, x.z + 1)
  }

  /** The buffer positions of the near voxel (plane) and the far voxel
      (plane + 1) of mask cell (u, v) of a slice: the reads
      `Idx(x[0] + 1, ...)` and `Idx(x[0] + q[0] + 1, ...)`, where x + q is
      the cell one plane further on (SliceCoordStep). */
  function NearIndex(size: nat, axis: Axis, plane: int, u: int, v: int): (k: int)
    requires -1 <= plane < size && 0 <= u < size && 0 <= v < size
    ensures 0 <= k < Cube(size + 2)
  {
    SliceCoordBounds(axis, plane, u, v, -1, size);
    PaddedIndex(size, SliceCoord(axis, plane, u, v))
  }

  function FarIndex(size: nat, axis: Axis, plane: int, u: int, v: int): (k: int)
    requires -1 <= plane < size && 0 <= u < size && 0 <= v < size
    ensures 0 <= k < Cube(size + 2)
  {
    SliceCoordBounds(axis, plane + 1, u, v, -1, size);
    PaddedIndex(size, SliceCoord(axis, plane + 1, u, v))
  }

  lemma SliceCoordBounds(axis: Axis, plane: int, u: int, v: int, lo: int, hi: int)
    requires lo <= plane <= hi && lo <= u <= hi && lo <= v <= hi
    ensures var x := SliceCoord(axis, plane, u, v);
      lo <= x.x <= hi && lo <= x.y <= hi && lo <= x.z <= hi
  {
    var x := SliceCoord(axis, plane, u, v);
    assert x.x == x.Get(0) && x.y == x.Get(1) && x.z == x.Get(2);
  }

  /** Stepping one unit along the sweep axis moves to the next plane. */
  lemma SliceCoordStep(axis: Axis, plane: int, u: int, v: int)
    ensures SliceCoord(axis, plane, u, v).Plus(Unit(axis)) == SliceCoord(axis, plane + 1, u, v)
  {
  }

  /** The mask cell for the voxel pair straddling a plane, `a` on the near
      side and `b` on the far side: a face exactly where one side is solid and
      the other empty, owned by the solid side, forward when that is the near
      side; otherwise no face at all. */
  function FaceCell(a: byte, b: byte): (c: Cell)
    ensures c.voxel != 0 <==> (a != 0) != (b != 0)
    ensures c.voxel != 0 ==> c.forwardFace == (a != 0) && c.voxel == (if a != 0 then a else b)
    ensures c.voxel == 0 ==> c == NoFace
  {
    if (a != 0) == (b != 0) then NoFace
    else if a != 0 then Cell(a, true)
    else Cell(b, false)
  }

  /** Mask cell (u, v) of slice `plane` along `axis`, read from the buffer. */
  function FaceAt(buf: seq<byte>, size: nat, axis: Axis, plane: int, u: int, v: int): Cell
    requires |buf| == Cube(size + 2)
    requires -1 <= plane < size && 0 <= u < size && 0 <= v < size
  {
    FaceCell(buf[NearIndex(size, axis, plane, u, v)], buf[FarIndex(size, axis, plane, u, v)])
  }

  /** Step 1: build the mask of one slice, cell (u, v) at n = v * size + u. */
  method BuildMask(paddedVoxels: array<byte>, size: nat, axis: Axis, plane: int, mask: array<Cell>)
    requires paddedVoxels.Length == Cube(size + 2) && mask.Length == size * size
    requires -1 <= plane < size
    modifies mask
    ensures forall u, v | 0 <= u < size && 0 <= v < size ::
              At(mask[..], size, u, v) == FaceAt(paddedVoxels[..], size, axis, plane, u, v)
  {
    var n := 0;
    for v := 0 to size
      invariant n == RowStart(size, v)
      invariant forall u', v' | 0 <= u' < size && 0 <= v' < v ::
                  At(mask[..], size, u', v') == FaceAt(paddedVoxels[..], size, axis, plane, u', v')
    {
      for u := 0 to size
        invariant n == RowStart(size, v) + u
        invariant forall u', v' | 0 <= u' < size && 0 <= v' < size && (v' < v || (v' == v && u' < u)) ::
                    At(mask[..], size, u', v') == FaceAt(paddedVoxels[..], size, axis, plane, u', v')
      {
            CellIndexBound(size, u, v);
        var typeA := paddedVoxels[NearIndex(size, axis, plane, u, v)];
        var typeB := paddedVoxels[FarIndex(size, axis, plane, u, v)];
        ghost var before := mask[..];
        mask[n] := FaceCell(typeA, typeB);
        forall u', v' | 0 <= u' < size && 0 <= v' < size && (v' < v || (v' == v && u' < u))
          ensures At(mask[..], size, u', v') == At(before, size, u', v')
        {
          CellIndexOrder(size, u', v', u, v);
        }
        n := n + 1;
      }
    }
  }

  // ---------------------------------------------------------------------------
  // Geometry emission

  /** The four corners of a quad: basePos (the slice's first cell, one step
      past the plane along the axis), basePos + du, basePos + dv and
      basePos + du + dv, with du = w along u and dv = h along v. */
  function Corners(q: Quad<Cell>): seq<Vec3> {
    var basePos := SliceCoord(q.axis, q.plane + 1, q.rect.i, q.rect.j);
    var du := Along(UAxis(q.axis), q.rect.w);
    var dv := Along(VAxis(q.axis), q.rect.h);
    [basePos, basePos.Plus(du), basePos.Plus(dv), basePos.Plus(du).Plus(dv)]
  }

  /** The face normal: +axis for forward faces, -axis for backward ones. */
  function FaceNormal(q: Quad<Cell>): Vec3 {
    Along(q.axis, if q.face.forwardFace then 1 else -1)
  }

  /** The six indices of a quad's two triangles when `indexCount` vertices
      precede it: (0, 2, 1), (1, 2, 3) for forward faces and (0, 1, 2),
      (1, 3, 2) for backward ones, as offsets into its four corners. */
  function QuadIndices(forwardFace: bool, indexCount: int): seq<int> {
    if forwardFace then [indexCount + 0, indexCount + 2, indexCount + 1, indexCount + 1, indexCount + 2, indexCount + 3]
    else [indexCount + 0, indexCount + 1, indexCount + 2, indexCount + 1, indexCount + 3, indexCount + 2]
  }

  /** What one quad adds to the four lists when `indexCount` vertices precede it. */
  function QuadMesh(q: Quad<Cell>, palette: seq<Color>, indexCount: int): MeshData
    requires q.face.voxel < |palette|
  {
    var normal := FaceNormal(q);
    var col := palette[q.face.voxel];
    MeshData(Corners(q), [normal, normal, normal, normal], [col, col, col, col],
             QuadIndices(q.face.forwardFace, indexCount))
  }

  function Concat(a: MeshData, b: MeshData): MeshData {
    MeshData(a.vertices + b.vertices, a.normals + b.normals, a.colors + b.colors, a.indices + b.indices)
  }

  /** Every quad's type has a palette entry. */
  predicate PaletteFits(qs: seq<Quad<Cell>>, palette: seq<Color>) {
    forall k | 0 <= k < |qs| :: qs[k].face.voxel < |palette|
  }

  /** The four lists after emitting `qs` in order. */
  function Emit(qs: seq<Quad<Cell>>, palette: seq<Color>): MeshData
    requires PaletteFits(qs, palette)
  {
    if |qs| == 0 then EmptyMesh
    else Concat(Emit(qs[..|qs| - 1], palette), QuadMesh(qs[|qs| - 1], palette, 4 * (|qs| - 1)))
  }

  /** Emitting one more quad after `before + sq` appends its QuadMesh, whose
      indices start at the four vertices per quad already emitted. */
  lemma EmitAppend(before: seq<Quad<Cell>>, sq: seq<Quad<Cell>>, q: Quad<Cell>, palette: seq<Color>)
    requires PaletteFits(before + sq, palette) && q.face.voxel < |palette|
    ensures PaletteFits(before + (sq + [q]), palette)
    ensures Emit(before + (sq + [q]), palette)
            == Concat(Emit(before + sq, palette), QuadMesh(q, palette, 4 * |before + sq|))
    ensures |before + (sq + [q])| == |before + sq| + 1
  {
    var all := before + (sq + [q]);
    assert all[..|all| - 1] == before + sq;
    assert all[|all| - 1] == q;
  }

  // ---------------------------------------------------------------------------
  // Step 2: the greedy merge of one slice

  /** Every cell without a face is exactly (0, false), as BuildMask leaves it;
      then the source's test `type != 0` is the test `cell != NoFace`. */
  /** `m` is the mask of slice `plane` along `axis` of the padded buffer. */
  ghost predicate MaskOf(m: seq<Cell>, buf: seq<byte>, size: nat, axis: Axis, plane: int)
  {
    && |m| == size * size && |buf| == Cube(size + 2) && -1 <= plane < size
    && forall u, v | 0 <= u < size && 0 <= v < size :: At(m, size, u, v) == FaceAt(buf, size, axis, plane, u, v)
  }

  ghost predicate Normalized(m: seq<Cell>, size: nat)
    requires |m| == size * size
  {
    forall u, v | 0 <= u < size && 0 <= v < size :: At(m, size, u, v).voxel == 0 ==> At(m, size, u, v) == NoFace
  }

  /** The state of the merge scan at cell (i, j): the generic scan state
      over the mask m, built as m0, with the quads sq emitted so far for this
      slice; m0 is normalized; and every cleared face has a palette entry. */
  ghost predicate ScanState(m0: seq<Cell>, m: seq<Cell>, sq: seq<Quad<Cell>>, size: nat, axis: Axis, plane: int,
                            palette: seq<Color>, i: int, j: int)
  {
    && Scanned(m0, m, sq, size, axis, plane, NoFace, i, j)
    && |m0| == size * size && |m| == size * size && Normalized(m0, size)
    && ClearedInPalette(m0, m, size, palette)
  }

  /** Every cell changed since the mask was built has a palette entry. */
  ghost predicate ClearedInPalette(m0: seq<Cell>, m: seq<Cell>, size: nat, palette: seq<Color>)
    requires |m0| == size * size && |m| == size * size
  {
    forall u, v | 0 <= u < size && 0 <= v < size && At(m, size, u, v) != At(m0, size, u, v) ::
      At(m0, size, u, v).voxel < |palette|
  }

  /** Emitting the rectangle found at (i, j) and clearing it moves the scan
      past the rectangle's first row segment. */
  lemma ScanEmit(m0: seq<Cell>, m: seq<Cell>, m': seq<Cell>, sq: seq<Quad<Cell>>, size: nat, axis: Axis, plane: int,
                 palette: seq<Color>, i: nat, j: nat, w: nat, h: nat, c: Cell)
    requires ScanState(m0, m, sq, size, axis, plane, palette, i, j)
    requires i < size && j < size && Fits(Rect(i, j, w, h), size)
    requires c != NoFace && c.voxel < |palette|
    requires forall u, v | 0 <= u < size && 0 <= v < size && InRect(Rect(i, j, w, h), u, v) :: At(m, size, u, v) == c
    requires |m'| == size * size
    requires forall u, v | 0 <= u < size && 0 <= v < size ::
               At(m', size, u, v) == if InRect(Rect(i, j, w, h), u, v) then NoFace else At(m, size, u, v)
    ensures ScanState(m0, m', sq + [Quad(axis, plane, Rect(i, j, w, h), c)], size, axis, plane, palette, i + w, j)
  {
    var r := Rect(i, j, w, h);
    ScannedEmit(m0, m, m', sq, size, axis, plane, NoFace, i, j, w, h, c);
    forall u, v | 0 <= u < size && 0 <= v < size && At(m', size, u, v) != At(m0, size, u, v)
      ensures At(m0, size, u, v).voxel < |palette|
    {
      if InRect(r, u, v) {
        assert At(m, size, u, v) == c;
        assert At(m0, size, u, v) == c;
      }
    }
  }

  /** A cell without a face is passed over. */
  lemma ScanSkip(m0: seq<Cell>, m: seq<Cell>, sq: seq<Quad<Cell>>, size: nat, axis: Axis, plane: int,
                 palette: seq<Color>, i: nat, j: nat)
    requires ScanState(m0, m, sq, size, axis, plane, palette, i, j)
    requires i < size && j < size && At(m, size, i, j).voxel == 0
    ensures ScanState(m0, m, sq, size, axis, plane, palette, i + 1, j)
  {
    CellIndexBound(size, i, j);
    assert At(m, size, i, j) == NoFace;
    ScannedSkip(m0, m, sq, size, axis, plane, NoFace, i, j);
  }

  /** The end of a row is the start of the next one. */
  lemma ScanNextRow(m0: seq<Cell>, m: seq<Cell>, sq: seq<Quad<Cell>>, size: nat, axis: Axis, plane: int,
                    palette: seq<Color>, j: nat)
    requires ScanState(m0, m, sq, size, axis, plane, palette, size, j)
    ensures ScanState(m0, m, sq, size, axis, plane, palette, 0, j + 1)
  {
    ScannedNextRow(m0, m, sq, size, axis, plane, NoFace, j);
  }

  /** At the end of the scan the mask is cleared, so every face of m0 is
      covered exactly once and has a palette entry. */
  lemma ScanFinished(m0: seq<Cell>, m: seq<Cell>, sq: seq<Quad<Cell>>, size: nat, axis: Axis, plane: int,
                     palette: seq<Color>)
    requires ScanState(m0, m, sq, size, axis, plane, palette, 0, size)
    ensures forall k | 0 <= k < |sq| ::
              sq[k].axis == axis && sq[k].plane == plane && Fits(sq[k].rect, size) && sq[k].face != NoFace
    ensures forall u, v | 0 <= u < size && 0 <= v < size ::
              CoverCount(sq, axis, plane, u, v) == if At(m0, size, u, v) != NoFace then 1 else 0
    ensures forall k, u, v | 0 <= k < |sq| && 0 <= u < size && 0 <= v < size && InRect(sq[k].rect, u, v) ::
              At(m0, size, u, v) == sq[k].face
    ensures forall u, v | 0 <= u < size && 0 <= v < size ::
              At(m0, size, u, v).voxel < |palette| || At(m0, size, u, v) == NoFace
  {
    ScannedFinished(m0, m, sq, size, axis, plane, NoFace);
  }

  /** One quad of the merge at a face cell (i, j): find its width and height,
      append its four vertices, normals and colours and six indices, and
      clear its rectangle. Fails, as `palette[type]` throws, when the cell's
      type has no palette entry. */
  method EmitQuadAt(mask: array<Cell>, size: nat, axis: Axis, plane: int, palette: seq<Color>, i: nat, j: nat, n: int,
                    md0: MeshData, indexCount0: int,
                    ghost m0: seq<Cell>, ghost before: seq<Quad<Cell>>, ghost sq0: seq<Quad<Cell>>)
    returns (ok: bool, w: nat, md: MeshData, indexCount: int, ghost q: Quad<Cell>)
    requires mask.Length == size * size && i < size && j < size && n == RowStart(size, j) + i
    requires ScanState(m0, mask[..], sq0, size, axis, plane, palette, i, j)
    requires At(mask[..], size, i, j).voxel != 0
    requires PaletteFits(before + sq0, palette) && md0 == Emit(before + sq0, palette)
    requires indexCount0 == 4 * |before + sq0|
    modifies mask
    ensures 1 <= w && i + w <= size
    ensures q == Quad(axis, plane, Rect(i, j, w, q.rect.h), At(m0, size, i, j)) && Fits(q.rect, size)
    ensures w == RowRun(old(mask[..]), size, i, j, q.face)
    ensures GreedyQuad(MaskCells(m0, size, NoFace), sq0, q, size, NoFace)
    ensures ok <==> At(m0, size, i, j).voxel < |palette|
    ensures ok ==> ScanState(m0, mask[..], sq0 + [q], size, axis, plane, palette, i + w, j)
    ensures ok ==> PaletteFits(before + (sq0 + [q]), palette) && md == Emit(before + (sq0 + [q]), palette)
    ensures ok ==> indexCount == 4 * |before + (sq0 + [q])|
  {
    ghost var m := mask[..];
    var quad := ChooseQuad(mask, size, axis, plane, i, j, n, NoFace, m0, m, sq0);
    var r, cell := quad.rect, quad.face;
    w := r.w;
    q := quad;
    if cell.voxel >= |palette| {
      ok, md, indexCount := false, md0, indexCount0;
      return;
    }
    md := Concat(md0, QuadMesh(quad, palette, indexCount0));
    indexCount := indexCount0 + 4;
    EmitAppend(before, sq0, quad, palette);
    ClearRect(mask, size, r, n, NoFace);
    ScanEmit(m0, m, mask[..], sq0, size, axis, plane, palette, i, j, r.w, r.h, cell);
    ok := true;
  }

  /** One step of the merge scan of row j at cell (i, j): a face cell starts
      a quad, emitted after the quads sq0 so far, and the scan moves past its
      width; an empty cell is skipped. Fails only on a type with no palette
      entry. */
  method ScanCell(mask: array<Cell>, size: nat, axis: Axis, plane: int, palette: seq<Color>, i: nat, j: nat, n: int,
                  md0: MeshData, indexCount0: int,
                  ghost m0: seq<Cell>, ghost before: seq<Quad<Cell>>, ghost sq0: seq<Quad<Cell>>)
    returns (ok: bool, bad: byte, w: nat, md: MeshData, indexCount: int, ghost sq: seq<Quad<Cell>>)
    requires mask.Length == size * size && i < size && j < size && n == RowStart(size, j) + i
    requires ScanState(m0, mask[..], sq0, size, axis, plane, palette, i, j)
    requires Greedy(MaskCells(m0, size, NoFace), sq0, size, NoFace)
    requires PaletteFits(before + sq0, palette) && md0 == Emit(before + sq0, palette)
    requires indexCount0 == 4 * |before + sq0|
    modifies mask
    ensures ok ==> 1 <= w && i + w <= size && ScanState(m0, mask[..], sq, size, axis, plane, palette, i + w, j)
    ensures ok ==> Greedy(MaskCells(m0, size, NoFace), sq, size, NoFace)
    ensures ok ==> PaletteFits(before + sq, palette) && md == Emit(before + sq, palette)
    ensures ok ==> indexCount == 4 * |before + sq|
    ensures !ok ==> bad != 0 && bad >= |palette| && At(m0, size, i, j).voxel == bad
  {
    CellIndexBound(size, i, j);
    assert mask[n] == At(mask[..], size, i, j);
    var cell := mask[n];
    if cell.voxel != 0 {
      assert cell == At(m0, size, i, j);
      ghost var q;
      ok, w, md, indexCount, q := EmitQuadAt(mask, size, axis, plane, palette, i, j, n, md0, indexCount0, m0, before, sq0);
      if !ok {
        bad, sq := cell.voxel, sq0;
        return;
      }
      GreedyAppend(MaskCells(m0, size, NoFace), sq0, q, size, NoFace);
      bad, sq := 0, sq0 + [q];
    } else {
      ScanSkip(m0, mask[..], sq0, size, axis, plane, palette, i, j);
      ok, bad, w, md, indexCount, sq := true, 0, 1, md0, indexCount0, sq0;
    }
  }

  /** The merge scan of row j (the inner `for (int i = 0; i < size;)` loop):
      starting at n = j * size with the quads sq0 of this slice so far, emits
      a quad for every face cell not yet cleared, and leaves row j cleared. */
  method MergeRow(mask: array<Cell>, size: nat, axis: Axis, plane: int, palette: seq<Color>, j: nat, n0: int,
                  md0: MeshData, indexCount0: int,
                  ghost m0: seq<Cell>, ghost before: seq<Quad<Cell>>, ghost sq0: seq<Quad<Cell>>)
    returns (ok: bool, bad: byte, n: int, md: MeshData, indexCount: int, ghost sq: seq<Quad<Cell>>)
    requires mask.Length == size * size && j < size && n0 == RowStart(size, j)
    requires ScanState(m0, mask[..], sq0, size, axis, plane, palette, 0, j)
    requires Greedy(MaskCells(m0, size, NoFace), sq0, size, NoFace)
    requires PaletteFits(before + sq0, palette) && md0 == Emit(before + sq0, palette)
    requires indexCount0 == 4 * |before + sq0|
    modifies mask
    ensures ok ==> n == RowStart(size, j + 1) && ScanState(m0, mask[..], sq, size, axis, plane, palette, 0, j + 1)
    ensures ok ==> Greedy(MaskCells(m0, size, NoFace), sq, size, NoFace)
    ensures ok ==> PaletteFits(before + sq, palette) && md == Emit(before + sq, palette)
    ensures ok ==> indexCount == 4 * |before + sq|
    ensures !ok ==> bad != 0 && bad >= |palette|
    ensures !ok ==> exists u, v | 0 <= u < size && 0 <= v < size :: At(m0, size, u, v).voxel == bad
  {
    n, md, indexCount, sq := n0, md0, indexCount0, sq0;
    var i := 0;
    while i < size
      invariant 0 <= i <= size && n == RowStart(size, j) + i
      invariant ScanState(m0, mask[..], sq, size, axis, plane, palette, i, j)
      invariant Greedy(MaskCells(m0, size, NoFace), sq, size, NoFace)
      invariant PaletteFits(before + sq, palette) && md == Emit(before + sq, palette)
      invariant indexCount == 4 * |before + sq|
      decreases size - i
    {
      var stepped, w;
      stepped, bad, w, md, indexCount, sq := ScanCell(mask, size, axis, plane, palette, i, j, n, md, indexCount, m0, before, sq);
      if !stepped {
        ok := false;
        assert At(m0, size, i, j).voxel == bad;
        return;
      }
      i := i + w;
      n := n + w;
    }
    ScanNextRow(m0, mask[..], sq, size, axis, plane, palette, j);
    ok, bad := true, 0;
  }

  /** The merge scan of one slice. Emits, after the quads `before` already in
      `md0`, one quad per rectangle it consumes; on success the new quads
      cover every face of the mask exactly once, each with a rectangle all of
      whose cells carried its face, and the mask ends up cleared. */
  method MergeSlice(mask: array<Cell>, size: nat, axis: Axis, plane: int, palette: seq<Color>,
                    md0: MeshData, indexCount0: int, ghost before: seq<Quad<Cell>>)
    returns (ok: bool, bad: byte, md: MeshData, indexCount: int, ghost sq: seq<Quad<Cell>>)
    requires mask.Length == size * size
    requires Normalized(mask[..], size)
    requires PaletteFits(before, palette) && md0 == Emit(before, palette) && indexCount0 == 4 * |before|
    modifies mask
    ensures ok ==> PaletteFits(before + sq, palette) && md == Emit(before + sq, palette)
    ensures ok ==> indexCount == 4 * |before + sq|
    ensures ok ==> forall k | 0 <= k < |sq| ::
                     sq[k].axis == axis && sq[k].plane == plane && Fits(sq[k].rect, size) && sq[k].face != NoFace
    ensures ok ==> forall u, v | 0 <= u < size && 0 <= v < size ::
                     CoverCount(sq, axis, plane, u, v) == if At(old(mask[..]), size, u, v) != NoFace then 1 else 0
    ensures ok ==> forall k, u, v | 0 <= k < |sq| && 0 <= u < size && 0 <= v < size && InRect(sq[k].rect, u, v) ::
                     At(old(mask[..]), size, u, v) == sq[k].face
    ensures ok ==> forall u, v | 0 <= u < size && 0 <= v < size ::
                     At(old(mask[..]), size, u, v).voxel < |palette| || At(old(mask[..]), size, u, v) == NoFace
    ensures ok ==> Greedy(MaskCells(old(mask[..]), size, NoFace), sq, size, NoFace)
    ensures !ok ==> bad != 0 && bad >= |palette|
    ensures !ok ==> exists u, v | 0 <= u < size && 0 <= v < size :: At(old(mask[..]), size, u, v).voxel == bad
  {
    ghost var m0 := mask[..];
    md, indexCount, sq := md0, indexCount0, [];
    assert before + sq == before;
    var n := 0;
    for j := 0 to size
      invariant n == RowStart(size, j)
      invariant ScanState(m0, mask[..], sq, size, axis, plane, palette, 0, j)
      invariant Greedy(MaskCells(m0, size, NoFace), sq, size, NoFace)
      invariant PaletteFits(before + sq, palette) && md == Emit(before + sq, palette)
      invariant indexCount == 4 * |before + sq|
    {
      ok, bad, n, md, indexCount, sq := MergeRow(mask, size, axis, plane, palette, j, n, md, indexCount, m0, before, sq);
      if !ok {
        return;
      }
    }
    ScanFinished(m0, mask[..], sq, size, axis, plane, palette);
    ok, bad := true, 0;
  }

  // ---------------------------------------------------------------------------
  // The whole sweep

  /** Every face of the buffer has a palette entry: the condition under which
      the source does not throw. */
  ghost predicate PaletteCoversFaces(buf: seq<byte>, size: nat, palette: seq<Color>)
    requires |buf| == Cube(size + 2)
  {
    forall a: Axis, p, u, v | -1 <= p < size && 0 <= u < size && 0 <= v < size ::
      FaceAt(buf, size, a, p, u, v) == NoFace || FaceAt(buf, size, a, p, u, v).voxel < |palette|
  }

  /** The state of the sweep when it reaches slice (axis, plane): the quads
      so far are non-empty rectangles of earlier slices whose cells carry
      their face; every face of an earlier slice is covered exactly once, and
      no cell of a later slice is covered. */
  ghost predicate Progress(buf: seq<byte>, size: nat, palette: seq<Color>, qs: seq<Quad<Cell>>, axis: int, plane: int)
    requires |buf| == Cube(size + 2)
  {
    SweptQuads(size, palette, qs, axis, plane) && SweptCover(buf, size, qs, axis, plane)
    && QuadsCarryFaces(buf, size, qs) && SweptPalette(buf, size, palette, axis, plane)
  }

  ghost predicate SweptQuads(size: nat, palette: seq<Color>, qs: seq<Quad<Cell>>, axis: int, plane: int)
  {
    forall k | 0 <= k < |qs| ::
      -1 <= qs[k].plane < size && Fits(qs[k].rect, size) && qs[k].face != NoFace
      && qs[k].face.voxel < |palette| && Before(qs[k].axis, qs[k].plane, axis, plane)
  }

  ghost predicate SweptCover(buf: seq<byte>, size: nat, qs: seq<Quad<Cell>>, axis: int, plane: int)
    requires |buf| == Cube(size + 2)
  {
    forall a: Axis, p, u, v | -1 <= p < size && 0 <= u < size && 0 <= v < size ::
      CoverCount(qs, a, p, u, v)
      == if Before(a, p, axis, plane) && FaceAt(buf, size, a, p, u, v) != NoFace then 1 else 0
  }

  ghost predicate QuadsCarryFaces(buf: seq<byte>, size: nat, qs: seq<Quad<Cell>>)
    requires |buf| == Cube(size + 2)
  {
    forall k, u, v | 0 <= k < |qs| && 0 <= u < size && 0 <= v < size && InRect(qs[k].rect, u, v) ::
      -1 <= qs[k].plane < size && FaceAt(buf, size, qs[k].axis, qs[k].plane, u, v) == qs[k].face
  }

  ghost predicate SweptPalette(buf: seq<byte>, size: nat, palette: seq<Color>, axis: int, plane: int)
    requires |buf| == Cube(size + 2)
  {
    forall a: Axis, p, u, v | -1 <= p < size && 0 <= u < size && 0 <= v < size && Before(a, p, axis, plane) ::
      FaceAt(buf, size, a, p, u, v) == NoFace || FaceAt(buf, size, a, p, u, v).voxel < |palette|
  }

  /** Appending the quads of slice (axis, plane), which cover the faces of
      its mask m0 exactly once, moves the sweep on to the next plane. */
  lemma ProgressStep(buf: seq<byte>, size: nat, palette: seq<Color>, qs: seq<Quad<Cell>>, sq: seq<Quad<Cell>>,
                     axis: Axis, plane: int, m0: seq<Cell>)
    requires |buf| == Cube(size + 2) && -1 <= plane < size && |m0| == size * size
    requires Progress(buf, size, palette, qs, axis, plane)
    requires MaskOf(m0, buf, size, axis, plane)
    requires forall k | 0 <= k < |sq| ::
               sq[k].axis == axis && sq[k].plane == plane && Fits(sq[k].rect, size) && sq[k].face != NoFace
    requires forall u, v | 0 <= u < size && 0 <= v < size ::
               CoverCount(sq, axis, plane, u, v) == if At(m0, size, u, v) != NoFace then 1 else 0
    requires forall k, u, v | 0 <= k < |sq| && 0 <= u < size && 0 <= v < size && InRect(sq[k].rect, u, v) ::
               At(m0, size, u, v) == sq[k].face
    requires forall u, v | 0 <= u < size && 0 <= v < size ::
               At(m0, size, u, v).voxel < |palette| || At(m0, size, u, v) == NoFace
    ensures Progress(buf, size, palette, qs + sq, axis, plane + 1)
  {
    SweptQuadsStep(size, palette, qs, sq, axis, plane, m0);
    SweptCoverStep(buf, size, qs, sq, axis, plane, m0);
    QuadsCarryFacesStep(buf, size, qs, sq, axis, plane, m0);
  }

  /** The oriented faces of every slice of the buffer, NoFace outside it. */
  function SliceFaces(buf: seq<byte>, size: nat): (Axis, int) -> (int, int) -> Cell {
    (axis: Axis, plane: int) => (u: int, v: int) => SliceCell(buf, size, axis, plane, u, v)
  }

  /** The face at cell (u, v) of a slice, NoFace outside the chunk's slices. */
  function SliceCell(buf: seq<byte>, size: nat, axis: Axis, plane: int, u: int, v: int): Cell {
    if |buf| == Cube(size + 2) && -1 <= plane < size && 0 <= u < size && 0 <= v < size
    then FaceAt(buf, size, axis, plane, u, v) else NoFace
  }
  /** Inside the chunk's slices, SliceFaces reads FaceAt. */
  lemma SliceFacesAt(buf: seq<byte>, size: nat, axis: Axis, plane: int, u: int, v: int)
    requires |buf| == Cube(size + 2) && -1 <= plane < size && 0 <= u < size && 0 <= v < size
    ensures SliceFaces(buf, size)(axis, plane)(u, v) == FaceAt(buf, size, axis, plane, u, v)
  {
  }


  /** Every quad is the greedy choice in its own slice after the quads
      emitted before it: its first cell is the first face in scan order not
      yet covered, its width the whole run of that face still uncovered along
      its row, and its height stops at the first row that cannot extend it. */
  ghost predicate GreedyCover(buf: seq<byte>, size: nat, qs: seq<Quad<Cell>>) {
    GreedySweep(SliceFaces(buf, size), qs, size, NoFace)
  }

  /** Appending the quads of slice (axis, plane), a greedy merge of that
      slice's mask m0, keeps the sweep greedy. */
  lemma GreedyCoverStep(buf: seq<byte>, size: nat, qs: seq<Quad<Cell>>, sq: seq<Quad<Cell>>,
                        axis: Axis, plane: int, m0: seq<Cell>)
    requires |buf| == Cube(size + 2) && -1 <= plane < size && |m0| == size * size
    requires GreedyCover(buf, size, qs)
    requires forall k | 0 <= k < |qs| :: Before(qs[k].axis, qs[k].plane, axis, plane)
    requires MaskOf(m0, buf, size, axis, plane)
    requires forall k | 0 <= k < |sq| :: sq[k].axis == axis && sq[k].plane == plane && Fits(sq[k].rect, size)
    requires Greedy(MaskCells(m0, size, NoFace), sq, size, NoFace)
    ensures GreedyCover(buf, size, qs + sq)
  {
    GreedySweepStep(SliceFaces(buf, size), qs, sq, size, axis, plane, NoFace, m0);
  }

  /** Slice `plane` along `axis` holds face c on R and no face elsewhere. */
  predicate SliceIs(buf: seq<byte>, size: nat, axis: Axis, plane: int, R: Rect, c: Cell)
    requires |buf| == Cube(size + 2) && -1 <= plane < size
  {
    forall u, v | 0 <= u < size && 0 <= v < size ::
      FaceAt(buf, size, axis, plane, u, v) == if InRect(R, u, v) then c else NoFace
  }

  /** When the faces of slice (axis, plane) are exactly the rectangle R, all
      of one cell c, a greedy exact cover holds exactly one quad of that
      slice, R itself: a run of k identical faces along a row is one quad of
      width k, and a fully covered slice is one size x size quad. */
  lemma RectangleSliceOneQuad(buf: seq<byte>, size: nat, qs: seq<Quad<Cell>>, axis: Axis, plane: int, R: Rect, c: Cell)
    requires |buf| == Cube(size + 2) && -1 <= plane < size
    requires ExactCover(buf, size, qs) && GreedyCover(buf, size, qs)
    requires Fits(R, size) && c != NoFace && SliceIs(buf, size, axis, plane, R, c)
    ensures exists k | 0 <= k < |qs| :: qs[k] == Quad(axis, plane, R, c)
              && forall k' | 0 <= k' < |qs| && qs[k'].axis == axis && qs[k'].plane == plane :: k' == k
  {
    ExactCoverSlice(buf, size, qs, axis, plane, R, c);
    ExactCoverSliceQuads(buf, size, qs, axis, plane);
    SweptRectangleOneQuad(SliceFaces(buf, size), qs, size, axis, plane, NoFace, R, c);
  }

  /** What an exact cover counts on slice (axis, plane), and the shape of
      that slice, read through SliceFaces. */
  lemma ExactCoverSlice(buf: seq<byte>, size: nat, qs: seq<Quad<Cell>>, axis: Axis, plane: int, R: Rect, c: Cell)
    requires |buf| == Cube(size + 2) && -1 <= plane < size && ExactCover(buf, size, qs)
    requires SliceIs(buf, size, axis, plane, R, c)
    ensures var slices := SliceFaces(buf, size);
      forall u, v | 0 <= u < size && 0 <= v < size ::
        CoverCount(qs, axis, plane, u, v) == if slices(axis, plane)(u, v) != NoFace then 1 else 0
    ensures var slices := SliceFaces(buf, size);
      forall u, v | 0 <= u < size && 0 <= v < size :: slices(axis, plane)(u, v) == if InRect(R, u, v) then c else NoFace
  {
    var cells := SliceFaces(buf, size)(axis, plane);
    forall u, v | 0 <= u < size && 0 <= v < size
      ensures CoverCount(qs, axis, plane, u, v) == if cells(u, v) != NoFace then 1 else 0
      ensures cells(u, v) == if InRect(R, u, v) then c else NoFace
    {
      SliceFacesAt(buf, size, axis, plane, u, v);
      assert CoverCount(qs, axis, plane, u, v) == if FaceAt(buf, size, axis, plane, u, v) != NoFace then 1 else 0;
    }
  }

  /** The quads of slice (axis, plane) in an exact cover fit the slice and
      carry the faces SliceFaces reads under them. */
  lemma ExactCoverSliceQuads(buf: seq<byte>, size: nat, qs: seq<Quad<Cell>>, axis: Axis, plane: int)
    requires |buf| == Cube(size + 2) && -1 <= plane < size && ExactCover(buf, size, qs)
    ensures forall k | 0 <= k < |qs| && qs[k].axis == axis && qs[k].plane == plane ::
              Fits(qs[k].rect, size) && qs[k].face != NoFace
    ensures var slices := SliceFaces(buf, size);
      forall k, u, v | 0 <= k < |qs| && qs[k].axis == axis && qs[k].plane == plane && 0 <= u < size && 0 <= v < size
                       && InRect(qs[k].rect, u, v) :: slices(axis, plane)(u, v) == qs[k].face
  {
    var cells := SliceFaces(buf, size)(axis, plane);
    forall k, u, v | 0 <= k < |qs| && qs[k].axis == axis && qs[k].plane == plane && 0 <= u < size && 0 <= v < size
                     && InRect(qs[k].rect, u, v)
      ensures cells(u, v) == qs[k].face
    {
      SliceFacesAt(buf, size, axis, plane, u, v);
      assert FaceAt(buf, size, qs[k].axis, qs[k].plane, u, v) == qs[k].face;
    }
  }

  /** An exact cover of the buffer covers the slices SliceFaces reads. */
  lemma ExactCoverSlices(buf: seq<byte>, size: nat, qs: seq<Quad<Cell>>)
    requires |buf| == Cube(size + 2) && ExactCover(buf, size, qs)
    ensures SlicesCovered(SliceFaces(buf, size), qs, size, NoFace)
  {
    var slices := SliceFaces(buf, size);
    forall a: Axis, p, u, v | -1 <= p < size && 0 <= u < size && 0 <= v < size
      ensures CoverCount(qs, a, p, u, v) == if slices(a, p)(u, v) != NoFace then 1 else 0
    {
      SliceFacesAt(buf, size, a, p, u, v);
    }
    forall k, u, v | 0 <= k < |qs| && 0 <= u < size && 0 <= v < size && InRect(qs[k].rect, u, v)
      ensures slices(qs[k].axis, qs[k].plane)(u, v) == qs[k].face
    {
      SliceFacesAt(buf, size, qs[k].axis, qs[k].plane, u, v);
    }
  }

  /** The quads of a buffer are determined: two greedy exact covers of one
      buffer, both in sweep order, are the same sequence, so every successful
      GenerateMeshData on a buffer yields the same quads and the same mesh. */
  lemma GreedyCoverUnique(buf: seq<byte>, size: nat, qs1: seq<Quad<Cell>>, qs2: seq<Quad<Cell>>)
    requires |buf| == Cube(size + 2)
    requires ExactCover(buf, size, qs1) && GreedyCover(buf, size, qs1) && SweepOrdered(qs1)
    requires ExactCover(buf, size, qs2) && GreedyCover(buf, size, qs2) && SweepOrdered(qs2)
    ensures qs1 == qs2
  {
    ExactCoverSlices(buf, size, qs1);
    ExactCoverSlices(buf, size, qs2);
    SweepUnique(SliceFaces(buf, size), qs1, qs2, size, NoFace);
  }


  /** A buffer holding one solid cube: every chunk cell has type t, t != 0,
      and the one-cell border around the chunk is empty. */
  ghost predicate SolidCube(buf: seq<byte>, size: nat, t: byte) {
    && t != 0 && |buf| == Cube(size + 2)
    && forall x, y, z | -1 <= x <= size && -1 <= y <= size && -1 <= z <= size ::
         buf[PaddedIndex(size, Vec3(x, y, z))] == if 0 <= x < size && 0 <= y < size && 0 <= z < size then t else 0
  }

  /** The voxel of a solid cube at chunk cell SliceCoord(axis, plane, u, v):
      t inside the chunk, 0 on the border. */
  lemma SolidCubeAt(buf: seq<byte>, size: nat, t: byte, axis: Axis, plane: int, u: int, v: int)
    requires SolidCube(buf, size, t) && -1 <= plane <= size && 0 <= u < size && 0 <= v < size
    ensures var x := SliceCoord(axis, plane, u, v);
      -1 <= x.x <= size && -1 <= x.y <= size && -1 <= x.z <= size
      && buf[PaddedIndex(size, x)] == if 0 <= plane < size then t else 0
  {
    var x := SliceCoord(axis, plane, u, v);
    SliceCoordBounds(axis, plane, u, v, -1, size);
    assert x == Vec3(x.x, x.y, x.z);
  }

  /** The faces of a solid cube: a full square of back faces in the plane
      before the chunk, a full square of forward faces in its last plane, and
      nothing in between. */
  lemma SolidCubeFaces(buf: seq<byte>, size: nat, t: byte, axis: Axis, plane: int, u: int, v: int)
    requires SolidCube(buf, size, t) && -1 <= plane < size && 0 <= u < size && 0 <= v < size
    ensures FaceAt(buf, size, axis, plane, u, v)
              == if plane == -1 then Cell(t, false) else if plane == size - 1 then Cell(t, true) else NoFace
  {
    SolidCubeAt(buf, size, t, axis, plane, u, v);
    SolidCubeAt(buf, size, t, axis, plane + 1, u, v);
  }

  /** Each side slice of a solid cube is one full square of faces of its type,
      looking out of the cube. */
  lemma SolidCubeSliceIs(buf: seq<byte>, size: nat, t: byte, axis: Axis, plane: int)
    requires 1 <= size && SolidCube(buf, size, t) && (plane == -1 || plane == size - 1)
    ensures SliceIs(buf, size, axis, plane, Rect(0, 0, size, size), if plane == -1 then Cell(t, false) else Cell(t, true))
  {
    forall u, v | 0 <= u < size && 0 <= v < size
      ensures FaceAt(buf, size, axis, plane, u, v) == if plane == -1 then Cell(t, false) else Cell(t, true)
    {
      SolidCubeFaces(buf, size, t, axis, plane, u, v);
    }
  }

  /** A slice whose cells all hold face c is one size x size quad of c, once. */
  lemma FullSliceOneQuad(buf: seq<byte>, size: nat, qs: seq<Quad<Cell>>, axis: Axis, plane: int, c: Cell)
    requires |buf| == Cube(size + 2) && 1 <= size && -1 <= plane < size && c != NoFace
    requires SliceIs(buf, size, axis, plane, Rect(0, 0, size, size), c)
    requires ExactCover(buf, size, qs) && GreedyCover(buf, size, qs)
    ensures SliceCount(qs, axis, plane) == 1
    ensures forall k | 0 <= k < |qs| && qs[k].axis == axis && qs[k].plane == plane ::
              qs[k] == Quad(axis, plane, Rect(0, 0, size, size), c)
  {
    RectangleSliceOneQuad(buf, size, qs, axis, plane, Rect(0, 0, size, size), c);
    ExactCoverCountAt(buf, size, qs, axis, plane, Rect(0, 0, size, size), c, 0, 0);
    OnlyQuadOfSlice(qs, axis, plane, Quad(axis, plane, Rect(0, 0, size, size), c), 0, 0);
  }

  /** An exact cover covers each cell of a slice's face rectangle once. */
  lemma ExactCoverCountAt(buf: seq<byte>, size: nat, qs: seq<Quad<Cell>>, axis: Axis, plane: int, R: Rect, c: Cell,
                          u: int, v: int)
    requires |buf| == Cube(size + 2) && -1 <= plane < size && ExactCover(buf, size, qs)
    requires SliceIs(buf, size, axis, plane, R, c) && c != NoFace
    requires 0 <= u < size && 0 <= v < size && InRect(R, u, v)
    ensures CoverCount(qs, axis, plane, u, v) == 1
  {
    assert FaceAt(buf, size, axis, plane, u, v) == c;
  }

  /** The quad of each face slice of a solid cube: the whole slice, once. */
  lemma SolidCubeSlice(buf: seq<byte>, size: nat, t: byte, qs: seq<Quad<Cell>>, axis: Axis, plane: int)
    requires 1 <= size && SolidCube(buf, size, t) && (plane == -1 || plane == size - 1)
    requires ExactCover(buf, size, qs) && GreedyCover(buf, size, qs)
    ensures SliceCount(qs, axis, plane) == 1
    ensures forall k | 0 <= k < |qs| && qs[k].axis == axis && qs[k].plane == plane ::
              qs[k] == Quad(axis, plane, Rect(0, 0, size, size), if plane == -1 then Cell(t, false) else Cell(t, true))
  {
    SolidCubeSliceIs(buf, size, t, axis, plane);
    FullSliceOneQuad(buf, size, qs, axis, plane, if plane == -1 then Cell(t, false) else Cell(t, true));
  }


  /** Every quad of a solid cube's cover lies on one of its sides. */
  lemma SolidCubePlanes(buf: seq<byte>, size: nat, t: byte, qs: seq<Quad<Cell>>)
    requires 1 <= size && SolidCube(buf, size, t) && ExactCover(buf, size, qs)
    ensures forall k | 0 <= k < |qs| :: qs[k].plane == -1 || qs[k].plane == size - 1
  {
    forall k | 0 <= k < |qs|
      ensures qs[k].plane == -1 || qs[k].plane == size - 1
    {
      var r := qs[k].rect;
      assert InRect(r, r.i, r.j);
      SolidCubeFaces(buf, size, t, qs[k].axis, qs[k].plane, r.i, r.j);
    }
  }

  /** No two quads of a solid cube's greedy cover share a slice. */
  lemma SolidCubeDistinct(buf: seq<byte>, size: nat, t: byte, qs: seq<Quad<Cell>>)
    requires 1 <= size && SolidCube(buf, size, t)
    requires ExactCover(buf, size, qs) && GreedyCover(buf, size, qs)
    requires forall k | 0 <= k < |qs| :: qs[k].plane == -1 || qs[k].plane == size - 1
    ensures forall k, k' | 0 <= k < k' < |qs| :: qs[k].axis != qs[k'].axis || qs[k].plane != qs[k'].plane
  {
    forall k, k' | 0 <= k < k' < |qs|
      ensures qs[k].axis != qs[k'].axis || qs[k].plane != qs[k'].plane
    {
      SolidCubeSlice(buf, size, t, qs, qs[k].axis, qs[k].plane);
      SliceCountOfPair(qs, k, k');
    }
  }

  /** A solid cube meshes as six quads, one size x size quad on each of its
      sides: back faces in plane -1 and forward faces in plane size - 1 along
      each axis, no two in the same slice. */
  lemma SolidCubeSixQuads(buf: seq<byte>, size: nat, t: byte, qs: seq<Quad<Cell>>)
    requires 1 <= size && SolidCube(buf, size, t)
    requires ExactCover(buf, size, qs) && GreedyCover(buf, size, qs)
    ensures |qs| == 6
    ensures forall k | 0 <= k < |qs| :: qs[k].rect == Rect(0, 0, size, size)
              && (|| (qs[k].plane == -1 && qs[k].face == Cell(t, false))
                  || (qs[k].plane == size - 1 && qs[k].face == Cell(t, true)))
    ensures forall k, k' | 0 <= k < k' < |qs| :: qs[k].axis != qs[k'].axis || qs[k].plane != qs[k'].plane
  {
    SolidCubePlanes(buf, size, t, qs);
    TwoPlanesCount(qs, -1, size - 1);
    forall a: Axis, p | p == -1 || p == size - 1
      ensures SliceCount(qs, a, p) == 1
    {
      SolidCubeSlice(buf, size, t, qs, a, p);
    }
    forall k | 0 <= k < |qs|
      ensures qs[k].rect == Rect(0, 0, size, size)
      ensures qs[k].plane == -1 ==> qs[k].face == Cell(t, false)
      ensures qs[k].plane != -1 ==> qs[k].face == Cell(t, true)
    {
      SolidCubeSlice(buf, size, t, qs, qs[k].axis, qs[k].plane);
    }
    SolidCubeDistinct(buf, size, t, qs);
  }


  lemma SweptQuadsStep(size: nat, palette: seq<Color>, qs: seq<Quad<Cell>>, sq: seq<Quad<Cell>>,
                       axis: Axis, plane: int, m0: seq<Cell>)
    requires -1 <= plane < size && |m0| == size * size
    requires SweptQuads(size, palette, qs, axis, plane)
    requires forall k | 0 <= k < |sq| ::
               sq[k].axis == axis && sq[k].plane == plane && Fits(sq[k].rect, size) && sq[k].face != NoFace
    requires forall k, u, v | 0 <= k < |sq| && 0 <= u < size && 0 <= v < size && InRect(sq[k].rect, u, v) ::
               At(m0, size, u, v) == sq[k].face
    requires forall u, v | 0 <= u < size && 0 <= v < size ::
               At(m0, size, u, v).voxel < |palette| || At(m0, size, u, v) == NoFace
    ensures SweptQuads(size, palette, qs + sq, axis, plane + 1)
  {
    forall k | 0 <= k < |sq|
      ensures sq[k].face.voxel < |palette|
    {
      var r := sq[k].rect;
      assert InRect(r, r.i, r.j);
      assert At(m0, size, r.i, r.j) == sq[k].face;
    }
  }

  lemma SweptCoverStep(buf: seq<byte>, size: nat, qs: seq<Quad<Cell>>, sq: seq<Quad<Cell>>,
                       axis: Axis, plane: int, m0: seq<Cell>)
    requires |buf| == Cube(size + 2) && -1 <= plane < size && |m0| == size * size
    requires SweptCover(buf, size, qs, axis, plane)
    requires MaskOf(m0, buf, size, axis, plane)
    requires forall k | 0 <= k < |sq| :: sq[k].axis == axis && sq[k].plane == plane
    requires forall u, v | 0 <= u < size && 0 <= v < size ::
               CoverCount(sq, axis, plane, u, v) == if At(m0, size, u, v) != NoFace then 1 else 0
    ensures SweptCover(buf, size, qs + sq, axis, plane + 1)
  {
    forall a: Axis, p, u, v | -1 <= p < size && 0 <= u < size && 0 <= v < size
      ensures CoverCount(qs + sq, a, p, u, v)
              == if Before(a, p, axis, plane + 1) && FaceAt(buf, size, a, p, u, v) != NoFace then 1 else 0
    {
      CoverCountAppend(qs, sq, a, p, u, v);
      if a != axis || p != plane {
        CoverCountElsewhere(sq, a, p, u, v);
      }
    }
  }

  lemma QuadsCarryFacesStep(buf: seq<byte>, size: nat, qs: seq<Quad<Cell>>, sq: seq<Quad<Cell>>,
                            axis: Axis, plane: int, m0: seq<Cell>)
    requires |buf| == Cube(size + 2) && -1 <= plane < size && |m0| == size * size
    requires QuadsCarryFaces(buf, size, qs)
    requires MaskOf(m0, buf, size, axis, plane)
    requires forall k | 0 <= k < |sq| :: sq[k].axis == axis && sq[k].plane == plane
    requires forall k, u, v | 0 <= k < |sq| && 0 <= u < size && 0 <= v < size && InRect(sq[k].rect, u, v) ::
               At(m0, size, u, v) == sq[k].face
    ensures QuadsCarryFaces(buf, size, qs + sq)
  {
    var all := qs + sq;
    forall k, u, v | 0 <= k < |all| && 0 <= u < size && 0 <= v < size && InRect(all[k].rect, u, v)
      ensures -1 <= all[k].plane < size && FaceAt(buf, size, all[k].axis, all[k].plane, u, v) == all[k].face
    {
      if k >= |qs| {
        assert all[k] == sq[k - |qs|];
      }
    }
  }

  /** A buffer without faces has no quads covering it. */
  lemma NoFacesNoQuads(buf: seq<byte>, size: nat, qs: seq<Quad<Cell>>)
    requires |buf| == Cube(size + 2) && ExactCover(buf, size, qs)
    requires forall a: Axis, p, u, v | -1 <= p < size && 0 <= u < size && 0 <= v < size ::
               FaceAt(buf, size, a, p, u, v) == NoFace
    ensures qs == []
  {
    if qs != [] {
      QuadOnFace(buf, size, qs, 0);
      assert false;
    }
  }

  /** The first cell of every quad of an exact cover is a face of the buffer
      carrying the quad's face. */
  lemma QuadOnFace(buf: seq<byte>, size: nat, qs: seq<Quad<Cell>>, k: int)
    requires |buf| == Cube(size + 2) && ExactCover(buf, size, qs) && 0 <= k < |qs|
    ensures var q := qs[k];
      && -1 <= q.plane < size && 0 <= q.rect.i < size && 0 <= q.rect.j < size
      && FaceAt(buf, size, q.axis, q.plane, q.rect.i, q.rect.j) == q.face != NoFace
  {
    var r := qs[k].rect;
    assert InRect(r, r.i, r.j);
  }

  /** The planes -1 .. size-1 of one axis are all the slices before the next axis. */
  lemma ProgressNextAxis(buf: seq<byte>, size: nat, palette: seq<Color>, qs: seq<Quad<Cell>>, axis: Axis)
    requires |buf| == Cube(size + 2)
    requires Progress(buf, size, palette, qs, axis, size)
    ensures Progress(buf, size, palette, qs, axis + 1, -1)
  {
  }

  /** After the last slice of the last axis, the quads are an exact cover and
      every face has a palette entry. */
  lemma ProgressFinished(buf: seq<byte>, size: nat, palette: seq<Color>, qs: seq<Quad<Cell>>)
    requires |buf| == Cube(size + 2)
    requires Progress(buf, size, palette, qs, 3, -1)
    ensures ExactCover(buf, size, qs) && PaletteFits(qs, palette) && PaletteCoversFaces(buf, size, palette)
  {
  }

  /** A mask cell of a slice whose type has no palette entry is a face the
      palette does not cover. */
  lemma UncoveredFace(buf: seq<byte>, size: nat, palette: seq<Color>, axis: Axis, plane: int, u: int, v: int, bad: byte)
    requires |buf| == Cube(size + 2) && -1 <= plane < size && 0 <= u < size && 0 <= v < size
    requires FaceAt(buf, size, axis, plane, u, v).voxel == bad && bad != 0 && bad >= |palette|
    ensures !PaletteCoversFaces(buf, size, palette)
    ensures exists a: Axis, p, u', v' | -1 <= p < size && 0 <= u' < size && 0 <= v' < size ::
              FaceAt(buf, size, a, p, u', v').voxel == bad
  {
  }

  /** A buffer of Air has no faces at all. */
  lemma AirHasNoFaces(buf: seq<byte>, size: nat)
    requires |buf| == Cube(size + 2)
    requires forall k | 0 <= k < |buf| :: buf[k] == 0
    ensures forall a: Axis, p, u, v | -1 <= p < size && 0 <= u < size && 0 <= v < size ::
              FaceAt(buf, size, a, p, u, v) == NoFace
  {
  }

  /** All-Air buffers: every palette covers their faces, and an exact cover
      of them is empty. */
  lemma AirMeshesEmpty(buf: seq<byte>, size: nat, palette: seq<Color>, qs: seq<Quad<Cell>>)
    requires |buf| == Cube(size + 2)
    ensures (forall k | 0 <= k < |buf| :: buf[k] == 0) ==> PaletteCoversFaces(buf, size, palette)
    ensures (forall k | 0 <= k < |buf| :: buf[k] == 0) && ExactCover(buf, size, qs) ==> qs == []
  {
    if forall k | 0 <= k < |buf| :: buf[k] == 0 {
      AirHasNoFaces(buf, size);
      if ExactCover(buf, size, qs) {
        NoFacesNoQuads(buf, size, qs);
      }
    }
  }

  /** The quads cover every face of the buffer exactly once, and each quad's
      cells all carry its face. */
  ghost predicate ExactCover(buf: seq<byte>, size: nat, qs: seq<Quad<Cell>>)
    requires |buf| == Cube(size + 2)
  {
    && (forall k | 0 <= k < |qs| :: -1 <= qs[k].plane < size && Fits(qs[k].rect, size) && qs[k].face != NoFace)
    && (forall a: Axis, p, u, v | -1 <= p < size && 0 <= u < size && 0 <= v < size ::
          CoverCount(qs, a, p, u, v) == if FaceAt(buf, size, a, p, u, v) != NoFace then 1 else 0)
    && (forall k, u, v | 0 <= k < |qs| && 0 <= u < size && 0 <= v < size && InRect(qs[k].rect, u, v) ::
          -1 <= qs[k].plane < size && FaceAt(buf, size, qs[k].axis, qs[k].plane, u, v) == qs[k].face)
  }

  /** One slice of the sweep: build its mask, then merge it, appending its
      quads to the mesh data. */
  method SweepSlice(paddedVoxels: array<byte>, size: nat, axis: Axis, plane: int, palette: seq<Color>, mask: array<Cell>,
                    md0: MeshData, indexCount0: int, ghost buf: seq<byte>, ghost qs: seq<Quad<Cell>>)
    returns (ok: bool, bad: byte, md: MeshData, indexCount: int, ghost qs': seq<Quad<Cell>>)
    requires paddedVoxels.Length == Cube(size + 2) && mask.Length == size * size && -1 <= plane < size
    requires buf == paddedVoxels[..]
    requires Progress(buf, size, palette, qs, axis, plane) && GreedyCover(buf, size, qs) && SweepOrdered(qs)
    requires md0 == Emit(qs, palette) && indexCount0 == 4 * |qs|
    modifies mask
    ensures ok ==> Progress(buf, size, palette, qs', axis, plane + 1) && GreedyCover(buf, size, qs')
    ensures ok ==> SweepOrdered(qs') && ExtendsOnAxis(qs, qs', axis)
    ensures ok ==> forall k | |qs| <= k < |qs'| :: qs'[k].plane == plane
    ensures ok ==> md == Emit(qs', palette) && indexCount == 4 * |qs'|
    ensures !ok ==> bad >= |palette| && !PaletteCoversFaces(buf, size, palette)
    ensures !ok ==> exists a: Axis, p, u, v | -1 <= p < size && 0 <= u < size && 0 <= v < size ::
                      FaceAt(buf, size, a, p, u, v).voxel == bad
  {
    BuildMask(paddedVoxels, size, axis, plane, mask);
    ghost var m0 := mask[..];
    assert MaskOf(m0, buf, size, axis, plane);
    ghost var sq;
    ok, bad, md, indexCount, sq := MergeSlice(mask, size, axis, plane, palette, md0, indexCount0, qs);
    if !ok {
      UncoveredMaskCell(buf, size, palette, axis, plane, m0, bad);
      qs' := qs;
      return;
    }
    SliceStep(buf, size, palette, qs, sq, axis, plane, m0);
    qs' := qs + sq;
    assert qs'[..|qs|] == qs;
  }

  /** Merging one slice's mask keeps the sweep invariants. */
  lemma SliceStep(buf: seq<byte>, size: nat, palette: seq<Color>, qs: seq<Quad<Cell>>, sq: seq<Quad<Cell>>,
                  axis: Axis, plane: int, m0: seq<Cell>)
    requires MaskOf(m0, buf, size, axis, plane)
    requires Progress(buf, size, palette, qs, axis, plane) && GreedyCover(buf, size, qs)
    requires forall k | 0 <= k < |sq| ::
               sq[k].axis == axis && sq[k].plane == plane && Fits(sq[k].rect, size) && sq[k].face != NoFace
    requires forall u, v | 0 <= u < size && 0 <= v < size ::
               CoverCount(sq, axis, plane, u, v) == if At(m0, size, u, v) != NoFace then 1 else 0
    requires forall k, u, v | 0 <= k < |sq| && 0 <= u < size && 0 <= v < size && InRect(sq[k].rect, u, v) ::
               At(m0, size, u, v) == sq[k].face
    requires forall u, v | 0 <= u < size && 0 <= v < size ::
               At(m0, size, u, v).voxel < |palette| || At(m0, size, u, v) == NoFace
    requires Greedy(MaskCells(m0, size, NoFace), sq, size, NoFace)
    requires SweepOrdered(qs)
    ensures Progress(buf, size, palette, qs + sq, axis, plane + 1) && GreedyCover(buf, size, qs + sq)
    ensures SweepOrdered(qs + sq)
  {
    ProgressStep(buf, size, palette, qs, sq, axis, plane, m0);
    GreedyCoverStep(buf, size, qs, sq, axis, plane, m0);
    SweepOrderedAppend(qs, sq, axis, plane);
  }

  /** A mask cell whose type has no palette entry is a face of the buffer
      whose type has none. */
  lemma UncoveredMaskCell(buf: seq<byte>, size: nat, palette: seq<Color>, axis: Axis, plane: int, m0: seq<Cell>, bad: byte)
    requires MaskOf(m0, buf, size, axis, plane) && bad != 0 && bad >= |palette|
    requires exists u, v | 0 <= u < size && 0 <= v < size :: At(m0, size, u, v).voxel == bad
    ensures !PaletteCoversFaces(buf, size, palette)
    ensures exists a: Axis, p, u, v | -1 <= p < size && 0 <= u < size && 0 <= v < size ::
              FaceAt(buf, size, a, p, u, v).voxel == bad
  {
    var u, v :| 0 <= u < size && 0 <= v < size && At(m0, size, u, v).voxel == bad;
    UncoveredFace(buf, size, palette, axis, plane, u, v, bad);
  }

  /** A fresh size x size mask with no faces. */
  method NewMask(size: nat) returns (mask: array<Cell>)
    ensures fresh(mask) && mask.Length == size * size
    ensures forall n | 0 <= n < mask.Length :: mask[n] == NoFace
  {
    RowOffset(size, 0, size);
    mask := new Cell[size * size](_ => NoFace);
  }

  /** The sweep along one axis: slices -1 .. size-1, sharing one mask. */
  method SweepAxis(paddedVoxels: array<byte>, size: nat, axis: Axis, palette: seq<Color>,
                   md0: MeshData, indexCount0: int, ghost buf: seq<byte>, ghost qs: seq<Quad<Cell>>)
    returns (ok: bool, bad: byte, md: MeshData, indexCount: int, ghost qs': seq<Quad<Cell>>)
    requires paddedVoxels.Length == Cube(size + 2) && buf == paddedVoxels[..]
    requires Progress(buf, size, palette, qs, axis, -1) && GreedyCover(buf, size, qs) && SweepOrdered(qs)
    requires md0 == Emit(qs, palette) && indexCount0 == 4 * |qs|
    ensures ok ==> Progress(buf, size, palette, qs', axis + 1, -1) && GreedyCover(buf, size, qs')
    ensures ok ==> SweepOrdered(qs') && ExtendsOnAxis(qs, qs', axis)
    ensures ok ==> md == Emit(qs', palette) && indexCount == 4 * |qs'|
    ensures !ok ==> bad >= |palette| && !PaletteCoversFaces(buf, size, palette)
    ensures !ok ==> exists a: Axis, p, u, v | -1 <= p < size && 0 <= u < size && 0 <= v < size ::
                      FaceAt(buf, size, a, p, u, v).voxel == bad
  {
    var mask := NewMask(size);
    md, indexCount, qs' := md0, indexCount0, qs;
    for plane := -1 to size
      invariant Progress(buf, size, palette, qs', axis, plane)
      invariant GreedyCover(buf, size, qs')
      invariant md == Emit(qs', palette) && indexCount == 4 * |qs'|
      invariant SweepOrdered(qs') && ExtendsOnAxis(qs, qs', axis)
    {
      ghost var before := qs';
      ok, bad, md, indexCount, qs' := SweepSlice(paddedVoxels, size, axis, plane, palette, mask, md, indexCount, buf, qs');
      if !ok {
        return;
      }
      ExtendsOnAxisTrans(qs, before, qs', axis);
    }
    ProgressNextAxis(buf, size, palette, qs', axis);
    ok, bad := true, 0;
  }

  /** GenerateMeshData. On success the four lists are exactly the quads of an
      exact cover of the buffer's faces; it fails
      exactly when some face's type has no palette entry; an all-empty buffer
      gives four empty lists. The quads come in sweep order, axis by axis
      and plane by plane, which makes them the buffer's one greedy exact
      cover (GreedyCoverUnique). */
  method GenerateMeshData(paddedVoxels: array<byte>, size: nat, palette: seq<Color>)
    returns (r: Result, ghost quads: seq<Quad<Cell>>)
    requires paddedVoxels.Length == Cube(size + 2)
    ensures r.Ok? <==> PaletteCoversFaces(paddedVoxels[..], size, palette)
    ensures r.Err? ==> r.error.voxel >= |palette| && exists a: Axis, p, u, v | -1 <= p < size && 0 <= u < size && 0 <= v < size ::
                         FaceAt(paddedVoxels[..], size, a, p, u, v).voxel == r.error.voxel
    ensures r.Ok? ==> ExactCover(paddedVoxels[..], size, quads) && GreedyCover(paddedVoxels[..], size, quads)
    ensures r.Ok? ==> SweepOrdered(quads)
    ensures r.Ok? ==> PaletteFits(quads, palette) && r.mesh == Emit(quads, palette)
    ensures (forall k | 0 <= k < paddedVoxels.Length :: paddedVoxels[k] == 0) ==> r == Ok(EmptyMesh)
  {
    ghost var buf := paddedVoxels[..];
    AirMeshesEmpty(buf, size, palette, []);
    var md := EmptyMesh;
    var indexCount := 0;
    quads := [];
    for axis := 0 to 3
      invariant Progress(buf, size, palette, quads, axis, -1) && GreedyCover(buf, size, quads)
      invariant md == Emit(quads, palette) && indexCount == 4 * |quads|
      invariant SweepOrdered(quads)
    {
      var ok, bad;
      ok, bad, md, indexCount, quads := SweepAxis(paddedVoxels, size, axis, palette, md, indexCount, buf, quads);
      if !ok {
        r := Err(PaletteIndexOutOfRange(bad));
        return;
      }
    }
    r := Ok(md);
    ProgressFinished(buf, size, palette, quads);
    AirMeshesEmpty(buf, size, palette, quads);
  }
}
