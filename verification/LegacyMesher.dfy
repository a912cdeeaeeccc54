/** The value-level theory of the legacy surface extractor
    (ChunkData.GenerateMesh): its mask holds only the type of the solid side
    of each face, merged rectangles are drawn as two triangles of six
    non-indexed vertices, wound by the orientation of the rectangle's first
    cell, and coloured by a fixed type-to-colour switch. The theory is over a
    padded (size+2)^3 snapshot of the voxels the mesher reads, laid out as
    GreedyMesher lays out its buffer. */
module LegacyMesher {
  import opened Geometry
  import opened VoxelTypes
  import opened SliceMerge
  import opened GreedyMesher
  import opened SweepOrder

  // ---------------------------------------------------------------------------
  // The mask

  /** The legacy mask cell for the voxel pair straddling a plane, `a` near and
      `b` far: 0 when both or neither are solid, else the solid one's type.
      It is the type of the oriented cell GreedyMesher keeps, with the
      orientation dropped. */
  function LegacyCell(a: byte, b: byte): (t: byte)
    ensures t == FaceCell(a, b).voxel
    ensures t != 0 <==> (a != 0) != (b != 0)
  {
    if (a != 0) == (b != 0) then 0
    else if a != 0 then a
    else b
  }

  /** Dropping the orientation makes the cell blind to which side is solid,
      while the oriented cell of a face tells the two sides apart. */
  lemma LegacyCellForgetsOrientation(a: byte, b: byte)
    ensures LegacyCell(a, b) == LegacyCell(b, a)
    ensures FaceCell(a, b) != NoFace ==> FaceCell(a, b) != FaceCell(b, a) && FaceCell(a, b).voxel == FaceCell(b, a).voxel
  {
  }

  /** Legacy mask cell (u, v) of slice `plane` along `axis`. */
  function LegacyFaceAt(buf: seq<byte>, size: nat, axis: Axis, plane: int, u: int, v: int): byte
    requires |buf| == Cube(size + 2)
    requires -1 <= plane < size && 0 <= u < size && 0 <= v < size
  {
    LegacyCell(buf[NearIndex(size, axis, plane, u, v)], buf[FarIndex(size, axis, plane, u, v)])
  }

  // ---------------------------------------------------------------------------
  // Emission

  /** The four corners v1 (i, j), v2 (i + w, j), v3 (i, j + h) and
      v4 (i + w, j + h) of a quad, on the plane one step past the slice. */
  function LegacyCorners(q: Quad<byte>): seq<Vec3> {
    var p, r := q.plane + 1, q.rect;
    [SliceCoord(q.axis, p, r.i, r.j), SliceCoord(q.axis, p, r.i + r.w, r.j),
     SliceCoord(q.axis, p, r.i, r.j + r.h), SliceCoord(q.axis, p, r.i + r.w, r.j + r.h)]
  }

  /** Both meshers place a merged rectangle at the same four corners. */
  lemma LegacyCornersAreCorners(q: Quad<byte>, forwardFace: bool)
    ensures LegacyCorners(q) == Corners(Quad(q.axis, q.plane, q.rect, Cell(q.face, forwardFace)))
  {
  }

  /** The six vertices of a quad's two triangles: v1, v3, v4, v1, v4, v2 for
      a back face and v1, v4, v3, v1, v2, v4 otherwise. */
  function LegacyTriangles(q: Quad<byte>, backFace: bool): (vs: seq<Vec3>)
    ensures |vs| == 6
  {
    var c := LegacyCorners(q);
    if backFace then [c[0], c[2], c[3], c[0], c[3], c[1]]
    else [c[0], c[3], c[2], c[0], c[1], c[3]]
  }

  /** The colour switch: "8b4513" for type 1, "808080" for type 2, hot pink
      for every other type. */
  function LegacyColor(t: byte): Color {
    if t == 1 then FromHex(0x8b, 0x45, 0x13)
    else if t == 2 then FromHex(0x80, 0x80, 0x80)
    else FromHex(0xff, 0x69, 0xb4)
  }

  /** The SurfaceTool contents: one position and one colour per vertex. */
  datatype LegacyMesh = LegacyMesh(vertices: seq<Vec3>, colors: seq<Color>)

  /** Every quad lies on a slice of the sweep and fits the mask. */
  predicate InSlices(qs: seq<Quad<byte>>, size: nat) {
    forall k | 0 <= k < |qs| :: -1 <= qs[k].plane < size && Fits(qs[k].rect, size)
  }

  /** The back-face test: the voxel at the quad's first cell, one step past the
      slice, is empty. */
  function BackFace(buf: seq<byte>, size: nat, q: Quad<byte>): bool
    requires |buf| == Cube(size + 2) && -1 <= q.plane < size && Fits(q.rect, size)
  {
    buf[FarIndex(size, q.axis, q.plane, q.rect.i, q.rect.j)] == 0
  }

  /** What one quad adds to the SurfaceTool. */
  function LegacyQuadMesh(buf: seq<byte>, size: nat, q: Quad<byte>): LegacyMesh
    requires |buf| == Cube(size + 2) && -1 <= q.plane < size && Fits(q.rect, size)
  {
    var col := LegacyColor(q.face);
    LegacyMesh(LegacyTriangles(q, BackFace(buf, size, q)), [col, col, col, col, col, col])
  }

  /** The SurfaceTool contents after emitting `qs` in order. */
  function LegacyEmit(buf: seq<byte>, size: nat, qs: seq<Quad<byte>>): LegacyMesh
    requires |buf| == Cube(size + 2) && InSlices(qs, size)
  {
    if |qs| == 0 then LegacyMesh([], [])
    else
      var a, b := LegacyEmit(buf, size, qs[..|qs| - 1]), LegacyQuadMesh(buf, size, qs[|qs| - 1]);
      LegacyMesh(a.vertices + b.vertices, a.colors + b.colors)
  }

  /** Emitting one more quad appends its six vertices and colours. */
  lemma LegacyEmitAppend(buf: seq<byte>, size: nat, qs: seq<Quad<byte>>, q: Quad<byte>)
    requires |buf| == Cube(size + 2) && InSlices(qs, size) && -1 <= q.plane < size && Fits(q.rect, size)
    ensures InSlices(qs + [q], size)
    ensures var a, b := LegacyEmit(buf, size, qs), LegacyQuadMesh(buf, size, q);
      LegacyEmit(buf, size, qs + [q]) == LegacyMesh(a.vertices + b.vertices, a.colors + b.colors)
  {
    assert (qs + [q])[..|qs|] == qs;
  }

  /** Six vertices and six colours per quad. */
  lemma {:induction false} LegacyEmitShape(buf: seq<byte>, size: nat, qs: seq<Quad<byte>>)
    requires |buf| == Cube(size + 2) && InSlices(qs, size)
    ensures |LegacyEmit(buf, size, qs).vertices| == 6 * |qs| && |LegacyEmit(buf, size, qs).colors| == 6 * |qs|
    decreases |qs|
  {
    if |qs| > 0 {
      LegacyEmitShape(buf, size, qs[..|qs| - 1]);
    }
  }

  /** The emitted lists of a non-empty sequence are those of all but its last
      quad, six entries per quad, followed by the last quad's own. */
  lemma LegacyEmitLast(buf: seq<byte>, size: nat, qs: seq<Quad<byte>>)
    requires |buf| == Cube(size + 2) && InSlices(qs, size) && |qs| > 0
    ensures InSlices(qs[..|qs| - 1], size)
    ensures var a, b := LegacyEmit(buf, size, qs[..|qs| - 1]), LegacyQuadMesh(buf, size, qs[|qs| - 1]);
      |a.vertices| == |a.colors| == 6 * (|qs| - 1) &&
      LegacyEmit(buf, size, qs) == LegacyMesh(a.vertices + b.vertices, a.colors + b.colors)
  {
    LegacyEmitShape(buf, size, qs[..|qs| - 1]);
  }

  /** The six vertices of the last quad close the emitted vertex list. */
  lemma LegacyVertexOfLast(buf: seq<byte>, size: nat, qs: seq<Quad<byte>>, r: int)
    requires |buf| == Cube(size + 2) && InSlices(qs, size) && |qs| > 0 && 0 <= r < 6
    ensures var m, q := LegacyEmit(buf, size, qs), qs[|qs| - 1];
      6 * (|qs| - 1) + r < |m.vertices| && m.vertices[6 * (|qs| - 1) + r] == LegacyTriangles(q, BackFace(buf, size, q))[r]
  {
    LegacyEmitLast(buf, size, qs);
  }

  /** The lists emitted for a prefix of the quads are prefixes of the lists
      emitted for all of them. */
  lemma {:induction false} LegacyEmitPrefix(buf: seq<byte>, size: nat, qs: seq<Quad<byte>>, j: int)
    requires |buf| == Cube(size + 2) && InSlices(qs, size) && 0 <= j <= |qs|
    ensures InSlices(qs[..j], size)
    ensures var m, m' := LegacyEmit(buf, size, qs), LegacyEmit(buf, size, qs[..j]);
      && |m'.vertices| <= |m.vertices| && m'.vertices == m.vertices[..|m'.vertices|]
      && |m'.colors| <= |m.colors| && m'.colors == m.colors[..|m'.colors|]
    decreases |qs|
  {
    if j < |qs| {
      var p := qs[..|qs| - 1];
      LegacyEmitLast(buf, size, qs);
      LegacyEmitPrefix(buf, size, p, j);
      assert p[..j] == qs[..j];
    } else {
      assert qs[..j] == qs;
    }
  }

  /** Vertex 6k + r of the emitted list is vertex r of quad k's triangles. */
  lemma LegacyEmitAt(buf: seq<byte>, size: nat, qs: seq<Quad<byte>>, k: int, r: int)
    requires |buf| == Cube(size + 2) && InSlices(qs, size) && 0 <= k < |qs| && 0 <= r < 6
    ensures var m := LegacyEmit(buf, size, qs);
      6 * k + r < |m.vertices| && m.vertices[6 * k + r] == LegacyTriangles(qs[k], BackFace(buf, size, qs[k]))[r]
  {
    LegacyEmitPrefix(buf, size, qs, k + 1);
    LegacyVertexOfLast(buf, size, qs[..k + 1], r);
    assert qs[..k + 1][k] == qs[k];
  }

  /** The six colours of the last quad close the emitted colour list. */
  lemma LegacyColorOfLast(buf: seq<byte>, size: nat, qs: seq<Quad<byte>>, r: int)
    requires |buf| == Cube(size + 2) && InSlices(qs, size) && |qs| > 0 && 0 <= r < 6
    ensures var m := LegacyEmit(buf, size, qs);
      6 * (|qs| - 1) + r < |m.colors| && m.colors[6 * (|qs| - 1) + r] == LegacyColor(qs[|qs| - 1].face)
  {
    LegacyEmitLast(buf, size, qs);
    var b := LegacyQuadMesh(buf, size, qs[|qs| - 1]).colors;
    assert b[r] == LegacyColor(qs[|qs| - 1].face);
  }

  /** Vertex 6k + r of the emitted list has the colour of quad k's type. */
  lemma LegacyColorAt(buf: seq<byte>, size: nat, qs: seq<Quad<byte>>, k: int, r: int)
    requires |buf| == Cube(size + 2) && InSlices(qs, size) && 0 <= k < |qs| && 0 <= r < 6
    ensures var m := LegacyEmit(buf, size, qs);
      6 * k + r < |m.colors| && m.colors[6 * k + r] == LegacyColor(qs[k].face)
  {
    LegacyEmitPrefix(buf, size, qs, k + 1);
    LegacyColorOfLast(buf, size, qs[..k + 1], r);
    assert qs[..k + 1][k] == qs[k];
  }

  // ---------------------------------------------------------------------------
  // Winding

  /** The direction a quad's triangles face: +axis for a back face (the far
      voxel is empty), -axis otherwise. */
  function LegacyNormal(q: Quad<byte>, backFace: bool): Vec3 {
    Along(q.axis, if backFace then 1 else -1)
  }

  /** The legacy mesher draws quad q, of a slice of buf, with normal n. */
  predicate DrawnAlong(buf: seq<byte>, size: nat, q: Quad<byte>, n: Vec3) {
    && |buf| == Cube(size + 2) && -1 <= q.plane < size && Fits(q.rect, size)
    && LegacyNormal(q, BackFace(buf, size, q)) == n
  }

  /** The triangle at vertices i, i + 1, i + 2 has an edge cross product
      (b - a) x (c - a) pointing against n: it is clockwise seen from the
      side n points to, which Godot draws as a front face. */
  predicate LegacyTriangleWinds(vs: seq<Vec3>, i: int, n: Vec3) {
    0 <= i && i + 2 < |vs| && vs[i + 1].Minus(vs[i]).Cross(vs[i + 2].Minus(vs[i])).Dot(n) < 0
  }

  /** Both triangles of quad k face along n. */
  predicate QuadWinds(vs: seq<Vec3>, k: int, n: Vec3) {
    LegacyTriangleWinds(vs, 6 * k, n) && LegacyTriangleWinds(vs, 6 * k + 3, n)
  }

  /** The in-plane edges of a quad: v2 - v1 is w along the first in-plane
      axis, v3 - v1 is h along the second, v4 - v1 is their sum. */
  lemma LegacyCornerEdges(q: Quad<byte>)
    ensures var c, du, dv := LegacyCorners(q), Along(UAxis(q.axis), q.rect.w), Along(VAxis(q.axis), q.rect.h);
      c[1].Minus(c[0]) == du && c[2].Minus(c[0]) == dv && c[3].Minus(c[0]) == du.Plus(dv)
  {
  }

  /** The edge cross products of the two triangle patterns: w * h along
      -axis for a back face, along +axis otherwise. */
  lemma LegacyEdgeCrosses(axis: Axis, w: int, h: int)
    ensures var du, dv := Along(UAxis(axis), w), Along(VAxis(axis), h);
      && dv.Cross(du.Plus(dv)) == Along(axis, -(w * h)) && du.Plus(dv).Cross(du) == Along(axis, -(w * h))
      && du.Plus(dv).Cross(dv) == Along(axis, w * h) && du.Cross(du.Plus(dv)) == Along(axis, w * h)
  {
    var du, dv := Along(UAxis(axis), w), Along(VAxis(axis), h);
    assert h * w == w * h;
    if axis == 0 {
      assert du == Vec3(0, w, 0) && dv == Vec3(0, 0, h);
    } else if axis == 1 {
      assert du == Vec3(0, 0, w) && dv == Vec3(h, 0, 0);
    } else {
      assert du == Vec3(w, 0, 0) && dv == Vec3(0, h, 0);
    }
  }

  /** Both triangles of a non-empty quad face along its legacy normal; the
      dot product is minus the quad's area. */
  lemma LegacyQuadWinding(q: Quad<byte>, backFace: bool)
    requires 1 <= q.rect.w && 1 <= q.rect.h
    ensures QuadWinds(LegacyTriangles(q, backFace), 0, LegacyNormal(q, backFace))
  {
    var w, h := q.rect.w, q.rect.h;
    assert 0 < w * h;
    var vs, n := LegacyTriangles(q, backFace), LegacyNormal(q, backFace);
    var c, du, dv := LegacyCorners(q), Along(UAxis(q.axis), w), Along(VAxis(q.axis), h);
    var s := if backFace then -1 else 1;
    assert Along(q.axis, s * (w * h)).Dot(n) == -(w * h) by {
      AlongDot(q.axis, s * (w * h), if backFace then 1 else -1);
    }
    assert LegacyTriangleWinds(vs, 0, n) by {
      LegacyCornerEdges(q);
      LegacyEdgeCrosses(q.axis, w, h);
      if backFace {
        assert vs[1].Minus(vs[0]).Cross(vs[2].Minus(vs[0])) == dv.Cross(du.Plus(dv));
      } else {
        assert vs[1].Minus(vs[0]).Cross(vs[2].Minus(vs[0])) == du.Plus(dv).Cross(dv);
      }
    }
    assert LegacyTriangleWinds(vs, 3, n) by {
      LegacyCornerEdges(q);
      LegacyEdgeCrosses(q.axis, w, h);
      if backFace {
        assert vs[4].Minus(vs[3]).Cross(vs[5].Minus(vs[3])) == du.Plus(dv).Cross(du);
      } else {
        assert vs[4].Minus(vs[3]).Cross(vs[5].Minus(vs[3])) == du.Cross(du.Plus(dv));
      }
    }
  }

  /** Quad k of a vertex list faces along n when its six vertices are a
      pattern that does. */
  lemma QuadWindsFrom(m: seq<Vec3>, k: int, vs: seq<Vec3>, n: Vec3)
    requires |vs| == 6 && 0 <= k && 6 * k + 6 <= |m|
    requires forall r | 0 <= r < 6 :: m[6 * k + r] == vs[r]
    requires QuadWinds(vs, 0, n)
    ensures QuadWinds(m, k, n)
  {
    assert m[6 * k] == vs[0] && m[6 * k + 1] == vs[1] && m[6 * k + 2] == vs[2];
    assert m[6 * k + 3] == vs[3] && m[6 * k + 4] == vs[4] && m[6 * k + 5] == vs[5];
  }

  /** The six emitted vertices of quad k are its triangles. */
  lemma LegacyQuadAt(buf: seq<byte>, size: nat, qs: seq<Quad<byte>>, k: int)
    requires |buf| == Cube(size + 2) && InSlices(qs, size) && 0 <= k < |qs|
    ensures var m, vs := LegacyEmit(buf, size, qs).vertices, LegacyTriangles(qs[k], BackFace(buf, size, qs[k]));
      6 * k + 6 <= |m| && forall r | 0 <= r < 6 :: m[6 * k + r] == vs[r]
  {
    LegacyEmitShape(buf, size, qs);
    forall r | 0 <= r < 6
      ensures LegacyEmit(buf, size, qs).vertices[6 * k + r] == LegacyTriangles(qs[k], BackFace(buf, size, qs[k]))[r]
    {
      LegacyEmitAt(buf, size, qs, k, r);
    }
  }

  /** Every quad of the emitted list faces along its legacy normal. */
  lemma LegacyWinding(buf: seq<byte>, size: nat, qs: seq<Quad<byte>>)
    requires |buf| == Cube(size + 2) && InSlices(qs, size)
    ensures var m := LegacyEmit(buf, size, qs);
      forall k | 0 <= k < |qs| :: QuadWinds(m.vertices, k, LegacyNormal(qs[k], BackFace(buf, size, qs[k])))
  {
    var m := LegacyEmit(buf, size, qs);
    forall k | 0 <= k < |qs|
      ensures QuadWinds(m.vertices, k, LegacyNormal(qs[k], BackFace(buf, size, qs[k])))
    {
      var back := BackFace(buf, size, qs[k]);
      LegacyQuadWinding(qs[k], back);
      LegacyQuadAt(buf, size, qs, k);
      QuadWindsFrom(m.vertices, k, LegacyTriangles(qs[k], back), LegacyNormal(qs[k], back));
    }
  }

  /** At the quad's first cell the legacy normal is the face's true
      direction: the back-face test reads the far voxel, which is empty
      exactly when the near one is the solid owner, and the oriented cell's
      normal then agrees. */
  lemma FirstCellFacing(buf: seq<byte>, size: nat, q: Quad<byte>)
    requires |buf| == Cube(size + 2) && -1 <= q.plane < size && Fits(q.rect, size)
    requires LegacyFaceAt(buf, size, q.axis, q.plane, q.rect.i, q.rect.j) != 0
    ensures var c := FaceAt(buf, size, q.axis, q.plane, q.rect.i, q.rect.j);
      BackFace(buf, size, q) == c.forwardFace
      && LegacyNormal(q, BackFace(buf, size, q)) == FaceNormal(Quad(q.axis, q.plane, q.rect, c))
  {
  }

  // ---------------------------------------------------------------------------
  // The sweep

  /** The quads cover every legacy face exactly once and each quad's cells
      all hold its type. */
  ghost predicate LegacyCover(buf: seq<byte>, size: nat, qs: seq<Quad<byte>>)
    requires |buf| == Cube(size + 2)
  {
    && (forall k | 0 <= k < |qs| :: -1 <= qs[k].plane < size && Fits(qs[k].rect, size) && qs[k].face != 0)
    && (forall a: Axis, p, u, v | -1 <= p < size && 0 <= u < size && 0 <= v < size ::
          CoverCount(qs, a, p, u, v) == if LegacyFaceAt(buf, size, a, p, u, v) != 0 then 1 else 0)
    && (forall k, u, v | 0 <= k < |qs| && 0 <= u < size && 0 <= v < size && InRect(qs[k].rect, u, v) ::
          -1 <= qs[k].plane < size && LegacyFaceAt(buf, size, qs[k].axis, qs[k].plane, u, v) == qs[k].face)
  }

  /** `m` is the legacy mask of slice `plane` along `axis` of the padded buffer. */
  ghost predicate LegacyMaskOf(m: seq<byte>, buf: seq<byte>, size: nat, axis: Axis, plane: int)
  {
    && |m| == size * size && |buf| == Cube(size + 2) && -1 <= plane < size
    && forall u, v | 0 <= u < size && 0 <= v < size :: At(m, size, u, v) == LegacyFaceAt(buf, size, axis, plane, u, v)
  }

  /** The state of the legacy sweep when it reaches slice (axis, plane). */
  ghost predicate LegacyProgress(buf: seq<byte>, size: nat, qs: seq<Quad<byte>>, axis: int, plane: int)
    requires |buf| == Cube(size + 2)
  {
    LegacySweptQuads(size, qs, axis, plane) && LegacySweptCover(buf, size, qs, axis, plane)
    && LegacyQuadsCarryFaces(buf, size, qs)
  }

  ghost predicate LegacySweptQuads(size: nat, qs: seq<Quad<byte>>, axis: int, plane: int) {
    forall k | 0 <= k < |qs| ::
      -1 <= qs[k].plane < size && Fits(qs[k].rect, size) && qs[k].face != 0 && Before(qs[k].axis, qs[k].plane, axis, plane)
  }

  ghost predicate LegacySweptCover(buf: seq<byte>, size: nat, qs: seq<Quad<byte>>, axis: int, plane: int)
    requires |buf| == Cube(size + 2)
  {
    forall a: Axis, p, u, v | -1 <= p < size && 0 <= u < size && 0 <= v < size ::
      CoverCount(qs, a, p, u, v)
      == if Before(a, p, axis, plane) && LegacyFaceAt(buf, size, a, p, u, v) != 0 then 1 else 0
  }

  ghost predicate LegacyQuadsCarryFaces(buf: seq<byte>, size: nat, qs: seq<Quad<byte>>)
    requires |buf| == Cube(size + 2)
  {
    forall k, u, v | 0 <= k < |qs| && 0 <= u < size && 0 <= v < size && InRect(qs[k].rect, u, v) ::
      -1 <= qs[k].plane < size && LegacyFaceAt(buf, size, qs[k].axis, qs[k].plane, u, v) == qs[k].face
  }

  /** Before the first slice nothing is covered. */
  lemma LegacyProgressStart(buf: seq<byte>, size: nat)
    requires |buf| == Cube(size + 2)
    ensures LegacyProgress(buf, size, [], 0, -1)
  {
  }

  /** The quads of every sweep state lie on slices of the sweep. */
  lemma LegacyProgressInSlices(buf: seq<byte>, size: nat, qs: seq<Quad<byte>>, axis: int, plane: int)
    requires |buf| == Cube(size + 2) && LegacyProgress(buf, size, qs, axis, plane)
    ensures InSlices(qs, size)
  {
  }

  /** Appending the quads of slice (axis, plane), which cover the faces of
      its mask m0 exactly once, moves the sweep on to the next plane. */
  lemma LegacyProgressStep(buf: seq<byte>, size: nat, qs: seq<Quad<byte>>, sq: seq<Quad<byte>>,
                           axis: Axis, plane: int, m0: seq<byte>)
    requires |buf| == Cube(size + 2) && -1 <= plane < size && |m0| == size * size
    requires LegacyProgress(buf, size, qs, axis, plane)
    requires LegacyMaskOf(m0, buf, size, axis, plane)
    requires forall k | 0 <= k < |sq| ::
               sq[k].axis == axis && sq[k].plane == plane && Fits(sq[k].rect, size) && sq[k].face != 0
    requires forall u, v | 0 <= u < size && 0 <= v < size ::
               CoverCount(sq, axis, plane, u, v) == if At(m0, size, u, v) != 0 then 1 else 0
    requires forall k, u, v | 0 <= k < |sq| && 0 <= u < size && 0 <= v < size && InRect(sq[k].rect, u, v) ::
               At(m0, size, u, v) == sq[k].face
    ensures LegacyProgress(buf, size, qs + sq, axis, plane + 1)
  {
    LegacySweptCoverStep(buf, size, qs, sq, axis, plane, m0);
    LegacyCarryStep(buf, size, qs, sq, axis, plane, m0);
  }

  lemma LegacySweptCoverStep(buf: seq<byte>, size: nat, qs: seq<Quad<byte>>, sq: seq<Quad<byte>>,
                             axis: Axis, plane: int, m0: seq<byte>)
    requires |buf| == Cube(size + 2) && -1 <= plane < size && |m0| == size * size
    requires LegacySweptCover(buf, size, qs, axis, plane)
    requires LegacyMaskOf(m0, buf, size, axis, plane)
    requires forall k | 0 <= k < |sq| :: sq[k].axis == axis && sq[k].plane == plane
    requires forall u, v | 0 <= u < size && 0 <= v < size ::
               CoverCount(sq, axis, plane, u, v) == if At(m0, size, u, v) != 0 then 1 else 0
    ensures LegacySweptCover(buf, size, qs + sq, axis, plane + 1)
  {
    forall a: Axis, p, u, v | -1 <= p < size && 0 <= u < size && 0 <= v < size
      ensures CoverCount(qs + sq, a, p, u, v)
              == if Before(a, p, axis, plane + 1) && LegacyFaceAt(buf, size, a, p, u, v) != 0 then 1 else 0
    {
      CoverCountAppend(qs, sq, a, p, u, v);
      if a != axis || p != plane {
        CoverCountElsewhere(sq, a, p, u, v);
      }
    }
  }

  lemma LegacyCarryStep(buf: seq<byte>, size: nat, qs: seq<Quad<byte>>, sq: seq<Quad<byte>>,
                        axis: Axis, plane: int, m0: seq<byte>)
    requires |buf| == Cube(size + 2) && -1 <= plane < size && |m0| == size * size
    requires LegacyQuadsCarryFaces(buf, size, qs)
    requires LegacyMaskOf(m0, buf, size, axis, plane)
    requires forall k | 0 <= k < |sq| :: sq[k].axis == axis && sq[k].plane == plane
    requires forall k, u, v | 0 <= k < |sq| && 0 <= u < size && 0 <= v < size && InRect(sq[k].rect, u, v) ::
               At(m0, size, u, v) == sq[k].face
    ensures LegacyQuadsCarryFaces(buf, size, qs + sq)
  {
    var all := qs + sq;
    forall k, u, v | 0 <= k < |all| && 0 <= u < size && 0 <= v < size && InRect(all[k].rect, u, v)
      ensures -1 <= all[k].plane < size && LegacyFaceAt(buf, size, all[k].axis, all[k].plane, u, v) == all[k].face
    {
      if k >= |qs| {
        assert all[k] == sq[k - |qs|];
      }
    }
  }

  /** The planes -1 .. size-1 of one axis are all the slices before the next axis. */
  lemma LegacyProgressNextAxis(buf: seq<byte>, size: nat, qs: seq<Quad<byte>>, axis: Axis)
    requires |buf| == Cube(size + 2)
    requires LegacyProgress(buf, size, qs, axis, size)
    ensures LegacyProgress(buf, size, qs, axis + 1, -1)
  {
  }

  /** After the last slice of the last axis, the quads are an exact cover of
      the legacy faces. */
  lemma LegacyProgressFinished(buf: seq<byte>, size: nat, qs: seq<Quad<byte>>)
    requires |buf| == Cube(size + 2)
    requires LegacyProgress(buf, size, qs, 3, -1)
    ensures LegacyCover(buf, size, qs)
  {
  }

  /** The vertex list of an exact cover: six vertices and colours per quad,
      and nothing at all for a buffer of Air. */
  lemma LegacyCoverMesh(buf: seq<byte>, size: nat, qs: seq<Quad<byte>>, mesh: LegacyMesh)
    requires |buf| == Cube(size + 2) && LegacyCover(buf, size, qs)
    requires InSlices(qs, size) && mesh == LegacyEmit(buf, size, qs)
    ensures |mesh.vertices| == |mesh.colors| == 6 * |qs|
    ensures (forall k | 0 <= k < |buf| :: buf[k] == 0) ==> mesh == LegacyMesh([], [])
  {
    LegacyEmitShape(buf, size, qs);
    if forall k | 0 <= k < |buf| :: buf[k] == 0 {
      LegacyAirHasNoQuads(buf, size, qs);
    }
  }

  /** A buffer of Air has no legacy faces, so an exact cover of it is empty. */
  lemma LegacyAirHasNoQuads(buf: seq<byte>, size: nat, qs: seq<Quad<byte>>)
    requires |buf| == Cube(size + 2) && LegacyCover(buf, size, qs)
    requires forall k | 0 <= k < |buf| :: buf[k] == 0
    ensures qs == []
  {
    if qs != [] {
      var q := qs[0];
      assert InRect(q.rect, q.rect.i, q.rect.j);
      assert false;
    }
  }

  /** The legacy mask cells of every slice of the buffer, 0 outside it. */
  function LegacySliceFaces(buf: seq<byte>, size: nat): (Axis, int) -> (int, int) -> byte {
    (axis: Axis, plane: int) => (u: int, v: int) => LegacySliceCell(buf, size, axis, plane, u, v)
  }

  /** The legacy face at cell (u, v) of a slice, 0 outside the chunk's slices. */
  function LegacySliceCell(buf: seq<byte>, size: nat, axis: Axis, plane: int, u: int, v: int): byte {
    if |buf| == Cube(size + 2) && -1 <= plane < size && 0 <= u < size && 0 <= v < size
    then LegacyFaceAt(buf, size, axis, plane, u, v) else 0
  }
  /** Inside the chunk's slices, LegacySliceFaces reads LegacyFaceAt. */
  lemma LegacySliceFacesAt(buf: seq<byte>, size: nat, axis: Axis, plane: int, u: int, v: int)
    requires |buf| == Cube(size + 2) && -1 <= plane < size && 0 <= u < size && 0 <= v < size
    ensures LegacySliceFaces(buf, size)(axis, plane)(u, v) == LegacyFaceAt(buf, size, axis, plane, u, v)
  {
  }


  /** Every quad is the greedy choice in its own slice of legacy cells after
      the quads emitted before it: its first cell is the first nonzero cell
      in scan order not yet covered, its width the whole run of its type
      still uncovered along its row, and its height stops at the first row
      that cannot extend it. */
  ghost predicate LegacyGreedyCover(buf: seq<byte>, size: nat, qs: seq<Quad<byte>>) {
    GreedySweep(LegacySliceFaces(buf, size), qs, size, 0)
  }

  /** Appending the quads of slice (axis, plane), a greedy merge of that
      slice's mask m0, keeps the legacy sweep greedy. */
  lemma LegacyGreedyCoverStep(buf: seq<byte>, size: nat, qs: seq<Quad<byte>>, sq: seq<Quad<byte>>,
                              axis: Axis, plane: int, m0: seq<byte>)
    requires |buf| == Cube(size + 2) && -1 <= plane < size && |m0| == size * size
    requires LegacyGreedyCover(buf, size, qs)
    requires forall k | 0 <= k < |qs| :: Before(qs[k].axis, qs[k].plane, axis, plane)
    requires LegacyMaskOf(m0, buf, size, axis, plane)
    requires forall k | 0 <= k < |sq| :: sq[k].axis == axis && sq[k].plane == plane && Fits(sq[k].rect, size)
    requires Greedy(MaskCells(m0, size, 0), sq, size, 0)
    ensures LegacyGreedyCover(buf, size, qs + sq)
  {
    GreedySweepStep(LegacySliceFaces(buf, size), qs, sq, size, axis, plane, 0, m0);
  }

  /** Merging one slice's legacy mask keeps the sweep invariants. */
  lemma LegacySliceStep(buf: seq<byte>, size: nat, qs: seq<Quad<byte>>, sq: seq<Quad<byte>>,
                        axis: Axis, plane: int, m0: seq<byte>)
    requires LegacyMaskOf(m0, buf, size, axis, plane)
    requires LegacyProgress(buf, size, qs, axis, plane) && LegacyGreedyCover(buf, size, qs)
    requires forall k | 0 <= k < |sq| ::
               sq[k].axis == axis && sq[k].plane == plane && Fits(sq[k].rect, size) && sq[k].face != 0
    requires forall u, v | 0 <= u < size && 0 <= v < size ::
               CoverCount(sq, axis, plane, u, v) == if At(m0, size, u, v) != 0 then 1 else 0
    requires forall k, u, v | 0 <= k < |sq| && 0 <= u < size && 0 <= v < size && InRect(sq[k].rect, u, v) ::
               At(m0, size, u, v) == sq[k].face
    requires Greedy(MaskCells(m0, size, 0), sq, size, 0)
    requires SweepOrdered(qs)
    ensures LegacyProgress(buf, size, qs + sq, axis, plane + 1) && LegacyGreedyCover(buf, size, qs + sq)
    ensures SweepOrdered(qs + sq)
  {
    LegacyProgressStep(buf, size, qs, sq, axis, plane, m0);
    LegacyGreedyCoverStep(buf, size, qs, sq, axis, plane, m0);
    SweepOrderedAppend(qs, sq, axis, plane);
  }

  /** Slice `plane` along `axis` of the legacy mask holds t on R and nothing elsewhere. */
  predicate LegacySliceIs(buf: seq<byte>, size: nat, axis: Axis, plane: int, R: Rect, t: byte)
    requires |buf| == Cube(size + 2) && -1 <= plane < size
  {
    forall u, v | 0 <= u < size && 0 <= v < size ::
      LegacyFaceAt(buf, size, axis, plane, u, v) == if InRect(R, u, v) then t else 0
  }

  /** Slice `plane` along `axis` of the legacy mask has no face outside R. */
  predicate LegacyEmptyOutside(buf: seq<byte>, size: nat, axis: Axis, plane: int, R: Rect)
    requires |buf| == Cube(size + 2) && -1 <= plane < size
  {
    forall u, v | 0 <= u < size && 0 <= v < size && !InRect(R, u, v) ::
      LegacyFaceAt(buf, size, axis, plane, u, v) == 0
  }

  /** When the legacy cells of slice (axis, plane) are exactly the rectangle
      R, all of type t, the legacy sweep draws exactly one quad for that
      slice, R itself: a run of k cells of one type is one quad of width k,
      and a slice covered by one type is one size x size quad. */
  lemma LegacyRectangleSliceOneQuad(buf: seq<byte>, size: nat, qs: seq<Quad<byte>>, axis: Axis, plane: int,
                                    R: Rect, t: byte)
    requires |buf| == Cube(size + 2) && -1 <= plane < size
    requires LegacyCover(buf, size, qs) && LegacyGreedyCover(buf, size, qs)
    requires Fits(R, size) && t != 0 && LegacySliceIs(buf, size, axis, plane, R, t)
    ensures exists k | 0 <= k < |qs| :: qs[k] == Quad(axis, plane, R, t)
              && forall k' | 0 <= k' < |qs| && qs[k'].axis == axis && qs[k'].plane == plane :: k' == k
  {
    LegacyCoverSlice(buf, size, qs, axis, plane, R, t);
    LegacyCoverSliceQuads(buf, size, qs, axis, plane);
    SweptRectangleOneQuad(LegacySliceFaces(buf, size), qs, size, axis, plane, 0, R, t);
  }

  /** What a legacy cover counts on slice (axis, plane), and the shape of
      that slice, read through LegacySliceFaces. */
  lemma LegacyCoverSlice(buf: seq<byte>, size: nat, qs: seq<Quad<byte>>, axis: Axis, plane: int, R: Rect, t: byte)
    requires |buf| == Cube(size + 2) && -1 <= plane < size && LegacyCover(buf, size, qs)
    requires LegacySliceIs(buf, size, axis, plane, R, t)
    ensures var slices := LegacySliceFaces(buf, size);
      forall u, v | 0 <= u < size && 0 <= v < size ::
        CoverCount(qs, axis, plane, u, v) == if slices(axis, plane)(u, v) != 0 then 1 else 0
    ensures var slices := LegacySliceFaces(buf, size);
      forall u, v | 0 <= u < size && 0 <= v < size :: slices(axis, plane)(u, v) == if InRect(R, u, v) then t else 0
  {
    var cells := LegacySliceFaces(buf, size)(axis, plane);
    forall u, v | 0 <= u < size && 0 <= v < size
      ensures CoverCount(qs, axis, plane, u, v) == if cells(u, v) != 0 then 1 else 0
      ensures cells(u, v) == if InRect(R, u, v) then t else 0
    {
      LegacySliceFacesAt(buf, size, axis, plane, u, v);
      assert CoverCount(qs, axis, plane, u, v) == if LegacyFaceAt(buf, size, axis, plane, u, v) != 0 then 1 else 0;
    }
  }

  /** The quads of slice (axis, plane) in a legacy cover fit the slice and
      carry the faces LegacySliceFaces reads under them. */
  lemma LegacyCoverSliceQuads(buf: seq<byte>, size: nat, qs: seq<Quad<byte>>, axis: Axis, plane: int)
    requires |buf| == Cube(size + 2) && -1 <= plane < size && LegacyCover(buf, size, qs)
    ensures forall k | 0 <= k < |qs| && qs[k].axis == axis && qs[k].plane == plane ::
              Fits(qs[k].rect, size) && qs[k].face != 0
    ensures var slices := LegacySliceFaces(buf, size);
      forall k, u, v | 0 <= k < |qs| && qs[k].axis == axis && qs[k].plane == plane && 0 <= u < size && 0 <= v < size
                       && InRect(qs[k].rect, u, v) :: slices(axis, plane)(u, v) == qs[k].face
  {
    var cells := LegacySliceFaces(buf, size)(axis, plane);
    forall k, u, v | 0 <= k < |qs| && qs[k].axis == axis && qs[k].plane == plane && 0 <= u < size && 0 <= v < size
                     && InRect(qs[k].rect, u, v)
      ensures cells(u, v) == qs[k].face
    {
      LegacySliceFacesAt(buf, size, axis, plane, u, v);
      assert LegacyFaceAt(buf, size, qs[k].axis, qs[k].plane, u, v) == qs[k].face;
    }
  }

  /** A legacy cover of the buffer covers the slices LegacySliceFaces reads. */
  lemma LegacyCoverSlices(buf: seq<byte>, size: nat, qs: seq<Quad<byte>>)
    requires |buf| == Cube(size + 2) && LegacyCover(buf, size, qs)
    ensures SlicesCovered(LegacySliceFaces(buf, size), qs, size, 0)
  {
    var slices := LegacySliceFaces(buf, size);
    forall a: Axis, p, u, v | -1 <= p < size && 0 <= u < size && 0 <= v < size
      ensures CoverCount(qs, a, p, u, v) == if slices(a, p)(u, v) != 0 then 1 else 0
    {
      LegacySliceFacesAt(buf, size, a, p, u, v);
    }
    forall k, u, v | 0 <= k < |qs| && 0 <= u < size && 0 <= v < size && InRect(qs[k].rect, u, v)
      ensures slices(qs[k].axis, qs[k].plane)(u, v) == qs[k].face
    {
      LegacySliceFacesAt(buf, size, qs[k].axis, qs[k].plane, u, v);
    }
  }

  /** The legacy quads of a buffer are determined: two greedy legacy covers
      of one buffer, both in sweep order, are the same sequence, so every
      ChunkData.GenerateMesh over the same voxels draws the same rectangles
      in the same order. */
  lemma LegacyCoverUnique(buf: seq<byte>, size: nat, qs1: seq<Quad<byte>>, qs2: seq<Quad<byte>>)
    requires |buf| == Cube(size + 2)
    requires LegacyCover(buf, size, qs1) && LegacyGreedyCover(buf, size, qs1) && SweepOrdered(qs1)
    requires LegacyCover(buf, size, qs2) && LegacyGreedyCover(buf, size, qs2) && SweepOrdered(qs2)
    ensures qs1 == qs2
  {
    LegacyCoverSlices(buf, size, qs1);
    LegacyCoverSlices(buf, size, qs2);
    SweepUnique(LegacySliceFaces(buf, size), qs1, qs2, size, 0);
  }


  /** Each side slice of a solid cube holds type t on its whole square in the
      legacy mask. */
  lemma LegacySolidCubeSliceIs(buf: seq<byte>, size: nat, t: byte, axis: Axis, plane: int)
    requires 1 <= size && SolidCube(buf, size, t) && (plane == -1 || plane == size - 1)
    ensures LegacySliceIs(buf, size, axis, plane, Rect(0, 0, size, size), t)
  {
    forall u, v | 0 <= u < size && 0 <= v < size
      ensures LegacyFaceAt(buf, size, axis, plane, u, v) == t
    {
      SolidCubeFaces(buf, size, t, axis, plane, u, v);
    }
  }

  /** A slice whose legacy cells all hold type t is one size x size quad of t,
      once. */
  lemma LegacyFullSliceOneQuad(buf: seq<byte>, size: nat, qs: seq<Quad<byte>>, axis: Axis, plane: int, t: byte)
    requires |buf| == Cube(size + 2) && 1 <= size && -1 <= plane < size && t != 0
    requires LegacySliceIs(buf, size, axis, plane, Rect(0, 0, size, size), t)
    requires LegacyCover(buf, size, qs) && LegacyGreedyCover(buf, size, qs)
    ensures SliceCount(qs, axis, plane) == 1
    ensures forall k | 0 <= k < |qs| && qs[k].axis == axis && qs[k].plane == plane ::
              qs[k] == Quad(axis, plane, Rect(0, 0, size, size), t)
  {
    LegacyRectangleSliceOneQuad(buf, size, qs, axis, plane, Rect(0, 0, size, size), t);
    LegacyCoverCountAt(buf, size, qs, axis, plane, Rect(0, 0, size, size), t, 0, 0);
    OnlyQuadOfSlice(qs, axis, plane, Quad(axis, plane, Rect(0, 0, size, size), t), 0, 0);
  }

  /** A legacy cover covers each cell of a slice's type rectangle once. */
  lemma LegacyCoverCountAt(buf: seq<byte>, size: nat, qs: seq<Quad<byte>>, axis: Axis, plane: int, R: Rect, t: byte,
                           u: int, v: int)
    requires |buf| == Cube(size + 2) && -1 <= plane < size && LegacyCover(buf, size, qs)
    requires LegacySliceIs(buf, size, axis, plane, R, t) && t != 0
    requires 0 <= u < size && 0 <= v < size && InRect(R, u, v)
    ensures CoverCount(qs, axis, plane, u, v) == 1
  {
    assert LegacyFaceAt(buf, size, axis, plane, u, v) == t;
  }

  /** The quad of each face slice of a solid cube: the whole slice, once. */
  lemma LegacySolidCubeSlice(buf: seq<byte>, size: nat, t: byte, qs: seq<Quad<byte>>, axis: Axis, plane: int)
    requires 1 <= size && SolidCube(buf, size, t) && (plane == -1 || plane == size - 1)
    requires LegacyCover(buf, size, qs) && LegacyGreedyCover(buf, size, qs)
    ensures SliceCount(qs, axis, plane) == 1
    ensures forall k | 0 <= k < |qs| && qs[k].axis == axis && qs[k].plane == plane ::
              qs[k] == Quad(axis, plane, Rect(0, 0, size, size), t)
  {
    LegacySolidCubeSliceIs(buf, size, t, axis, plane);
    LegacyFullSliceOneQuad(buf, size, qs, axis, plane, t);
  }


  /** Every quad of a solid cube's cover lies on one of its sides. */
  lemma LegacySolidCubePlanes(buf: seq<byte>, size: nat, t: byte, qs: seq<Quad<byte>>)
    requires 1 <= size && SolidCube(buf, size, t) && LegacyCover(buf, size, qs)
    ensures forall k | 0 <= k < |qs| :: qs[k].plane == -1 || qs[k].plane == size - 1
  {
    forall k | 0 <= k < |qs|
      ensures qs[k].plane == -1 || qs[k].plane == size - 1
    {
      var r := qs[k].rect;
      assert InRect(r, r.i, r.j);
      SolidCubeFaces(buf, size, t, qs[k].axis, qs[k].plane, r.i, r.j);
    }
  }

  /** No two quads of a solid cube's greedy cover share a slice. */
  lemma LegacySolidCubeDistinct(buf: seq<byte>, size: nat, t: byte, qs: seq<Quad<byte>>)
    requires 1 <= size && SolidCube(buf, size, t)
    requires LegacyCover(buf, size, qs) && LegacyGreedyCover(buf, size, qs)
    requires forall k | 0 <= k < |qs| :: qs[k].plane == -1 || qs[k].plane == size - 1
    ensures forall k, k' | 0 <= k < k' < |qs| :: qs[k].axis != qs[k'].axis || qs[k].plane != qs[k'].plane
  {
    forall k, k' | 0 <= k < k' < |qs|
      ensures qs[k].axis != qs[k'].axis || qs[k].plane != qs[k'].plane
    {
      LegacySolidCubeSlice(buf, size, t, qs, qs[k].axis, qs[k].plane);
      SliceCountOfPair(qs, k, k');
    }
  }

  /** A solid cube meshes as six quads of its type, one size x size quad on
      each of its sides (planes -1 and size - 1 along each axis), no two in
      the same slice. */
  lemma LegacySolidCubeSixQuads(buf: seq<byte>, size: nat, t: byte, qs: seq<Quad<byte>>)
    requires 1 <= size && SolidCube(buf, size, t)
    requires LegacyCover(buf, size, qs) && LegacyGreedyCover(buf, size, qs)
    ensures |qs| == 6
    ensures forall k | 0 <= k < |qs| ::
              qs[k].rect == Rect(0, 0, size, size) && qs[k].face == t && (qs[k].plane == -1 || qs[k].plane == size - 1)
    ensures forall k, k' | 0 <= k < k' < |qs| :: qs[k].axis != qs[k'].axis || qs[k].plane != qs[k'].plane
  {
    LegacySolidCubePlanes(buf, size, t, qs);
    TwoPlanesCount(qs, -1, size - 1);
    forall a: Axis, p | p == -1 || p == size - 1
      ensures SliceCount(qs, a, p) == 1
    {
      LegacySolidCubeSlice(buf, size, t, qs, a, p);
    }
    forall k | 0 <= k < |qs|
      ensures qs[k].rect == Rect(0, 0, size, size) && qs[k].face == t
    {
      LegacySolidCubeSlice(buf, size, t, qs, qs[k].axis, qs[k].plane);
    }
    LegacySolidCubeDistinct(buf, size, t, qs);
  }

  // ---------------------------------------------------------------------------
  // The orientation defect and its correction

  /** Two neighbouring faces of one type that look opposite ways: at cell
      (0, 0) the near voxel is solid and the far one empty, at cell (1, 0)
      the other way round. The legacy mask holds the same type at both, so
      the width run from (0, 0) spans both and they become one quad, drawn
      facing +axis (the first cell's direction) although the face at (1, 0)
      looks along -axis. GreedyMesher's oriented mask tells the cells apart,
      and its run from (0, 0) stops after one cell. */
  lemma LegacyMergesOppositeFaces(buf: seq<byte>, size: nat, axis: Axis, plane: int, t: byte,
                                  legacy: seq<byte>, oriented: seq<Cell>, h: int)
    requires |buf| == Cube(size + 2) && 2 <= size && -1 <= plane < size && t != 0 && 1 <= h <= size
    requires buf[NearIndex(size, axis, plane, 0, 0)] == t && buf[FarIndex(size, axis, plane, 0, 0)] == 0
    requires buf[NearIndex(size, axis, plane, 1, 0)] == 0 && buf[FarIndex(size, axis, plane, 1, 0)] == t
    requires |legacy| == size * size && |oriented| == size * size
    requires forall u, v | 0 <= u < size && 0 <= v < size :: At(legacy, size, u, v) == LegacyFaceAt(buf, size, axis, plane, u, v)
    requires forall u, v | 0 <= u < size && 0 <= v < size :: At(oriented, size, u, v) == FaceAt(buf, size, axis, plane, u, v)
    ensures At(legacy, size, 0, 0) == At(legacy, size, 1, 0) == t
    ensures RowRun(legacy, size, 0, 0, t) >= 2
    ensures var q := Quad(axis, plane, Rect(0, 0, RowRun(legacy, size, 0, 0, t), h), t);
      && InRect(q.rect, 1, 0)
      && LegacyNormal(q, BackFace(buf, size, q)) == Along(axis, 1)
      && FaceNormal(Quad(axis, plane, Rect(1, 0, 1, 1), At(oriented, size, 1, 0))) == Along(axis, -1)
    ensures At(oriented, size, 0, 0) != At(oriented, size, 1, 0)
    ensures RowRun(oriented, size, 0, 0, At(oriented, size, 0, 0)) == 1
  {
    assert At(legacy, size, 1, 0) == LegacyFaceAt(buf, size, axis, plane, 1, 0);
    assert At(oriented, size, 1, 0) == FaceAt(buf, size, axis, plane, 1, 0);
    var c := At(oriented, size, 0, 0);
    assert RowRun(oriented, size, 1, 0, c) == 0;
    assert RowRun(legacy, size, 0, 0, t) == 1 + RowRun(legacy, size, 1, 0, t);
  }

  /** The slice of the defect: a forward face of type t at cell (0, 0), a
      backward face of type t at cell (1, 0), and no other legacy face. */
  predicate OppositePairSlice(buf: seq<byte>, size: nat, axis: Axis, plane: int, t: byte) {
    && |buf| == Cube(size + 2) && 2 <= size && -1 <= plane < size
    && FaceAt(buf, size, axis, plane, 0, 0) == Cell(t, true) && FaceAt(buf, size, axis, plane, 1, 0) == Cell(t, false)
    && LegacyEmptyOutside(buf, size, axis, plane, Rect(0, 0, 2, 1))
  }

  /** The slice of the defect: its legacy mask holds t on the two cells (0, 0)
      and (1, 0) and nothing elsewhere, while the current mesher's face at
      (1, 0) looks along -axis and the back-face test on the merged quad's
      first cell draws it along +axis. */
  lemma OppositeFaceCells(buf: seq<byte>, size: nat, axis: Axis, plane: int, t: byte)
    requires OppositePairSlice(buf, size, axis, plane, t)
    ensures LegacySliceIs(buf, size, axis, plane, Rect(0, 0, 2, 1), t)
    ensures t != 0
    ensures FaceNormal(Quad(axis, plane, Rect(1, 0, 1, 1), Cell(t, false))) == Along(axis, -1)
    ensures DrawnAlong(buf, size, Quad(axis, plane, Rect(0, 0, 2, 1), t), Along(axis, 1))
  {
    assert LegacyFaceAt(buf, size, axis, plane, 0, 0) == t;
    assert LegacyFaceAt(buf, size, axis, plane, 1, 0) == t;
    forall u, v | 0 <= u < size && 0 <= v < size
      ensures LegacyFaceAt(buf, size, axis, plane, u, v) == if InRect(Rect(0, 0, 2, 1), u, v) then t else 0
    {
      if v == 0 && u < 2 {
        assert u == 0 || u == 1;
      }
    }
  }

  /** The same defect in what the legacy sweep leaves: when the only faces of
      a slice are a forward face at (0, 0) and a backward face at (1, 0), both
      of type t, every greedy type-only cover holds exactly one quad of that
      slice, spanning both cells and drawn facing +axis, although the face at
      (1, 0) looks along -axis. */
  lemma LegacyCoverMergesOppositeFaces(buf: seq<byte>, size: nat, qs: seq<Quad<byte>>, axis: Axis, plane: int, t: byte)
    requires OppositePairSlice(buf, size, axis, plane, t)
    requires LegacyCover(buf, size, qs) && LegacyGreedyCover(buf, size, qs)
    ensures exists k | 0 <= k < |qs| :: qs[k] == Quad(axis, plane, Rect(0, 0, 2, 1), t)
              && forall k' | 0 <= k' < |qs| && qs[k'].axis == axis && qs[k'].plane == plane :: k' == k
    ensures DrawnAlong(buf, size, Quad(axis, plane, Rect(0, 0, 2, 1), t), Along(axis, 1))
    ensures FaceNormal(Quad(axis, plane, Rect(1, 0, 1, 1), Cell(t, false))) == Along(axis, -1)
  {
    OppositeFaceCells(buf, size, axis, plane, t);
    LegacyRectangleSliceOneQuad(buf, size, qs, axis, plane, Rect(0, 0, 2, 1), t);
  }

  /** In GreedyMesher's exact cover, every cell of a quad carries the quad's
      own oriented cell, so its single normal is the true direction of every
      face it draws. */
  lemma OrientedQuadsFaceTheirCells(buf: seq<byte>, size: nat, qs: seq<Quad<Cell>>, k: int, u: int, v: int)
    requires |buf| == Cube(size + 2) && ExactCover(buf, size, qs)
    requires 0 <= k < |qs| && 0 <= u < size && 0 <= v < size && InRect(qs[k].rect, u, v)
    ensures var c := FaceAt(buf, size, qs[k].axis, qs[k].plane, u, v);
      c != NoFace && FaceNormal(qs[k]) == FaceNormal(Quad(qs[k].axis, qs[k].plane, Rect(u, v, 1, 1), c))
  {
  }
}
