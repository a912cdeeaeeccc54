/** What the four lists of GreedyMesher.GenerateMeshData look like: each quad
    owns four consecutive vertices, normals and colours and six consecutive
    indices; every index names a corner of its own quad; both triangles of
    every quad wind the same way about its normal, whichever way the face
    points; and every vertex lies on the chunk's [0, size]^3 box. */
module MeshProperties {
  import opened Geometry
  import opened VoxelTypes
  import opened SliceMerge
  import opened GreedyMesher

  /** Lists holding k quads' worth of entries: 4k vertices, normals and
      colours and 6k indices. */
  predicate HoldsQuads(m: MeshData, k: int) {
    |m.vertices| == 4 * k && |m.normals| == 4 * k && |m.colors| == 4 * k && |m.indices| == 6 * k
  }

  /** The lists of `qs` hold four vertices, normals and colours and six
      indices per quad. */
  lemma {:induction false} EmitShape(qs: seq<Quad<Cell>>, palette: seq<Color>)
    requires PaletteFits(qs, palette)
    ensures HoldsQuads(Emit(qs, palette), |qs|)
    decreases |qs|
  {
    if |qs| > 0 {
      EmitShape(qs[..|qs| - 1], palette);
    }
  }

  /** Below the last quad's four entries, the vertex, normal and colour lists
      of n quads agree with those of their first n - 1. */
  lemma VertexOfInit(qs: seq<Quad<Cell>>, palette: seq<Color>, i: int)
    requires PaletteFits(qs, palette) && |qs| > 0 && 0 <= i < 4 * (|qs| - 1)
    ensures PaletteFits(qs[..|qs| - 1], palette)
    ensures var m, m' := Emit(qs, palette), Emit(qs[..|qs| - 1], palette);
      && i < |m.vertices| && i < |m.normals| && i < |m.colors|
      && i < |m'.vertices| && i < |m'.normals| && i < |m'.colors|
      && m.vertices[i] == m'.vertices[i] && m.normals[i] == m'.normals[i] && m.colors[i] == m'.colors[i]
  {
    var n := |qs|;
    var p := qs[..n - 1];
    var a, b := Emit(p, palette), QuadMesh(qs[n - 1], palette, 4 * (n - 1));
    EmitShape(p, palette);
    assert Emit(qs, palette) == Concat(a, b);
    assert (a.vertices + b.vertices)[i] == a.vertices[i];
    assert (a.normals + b.normals)[i] == a.normals[i];
    assert (a.colors + b.colors)[i] == a.colors[i];
  }

  /** Vertex, normal and colour 4(n-1) + o of the lists of n quads are corner
      o of the last quad, its face normal and the palette colour of its type. */
  lemma VertexOfLast(qs: seq<Quad<Cell>>, palette: seq<Color>, o: int)
    requires PaletteFits(qs, palette) && |qs| > 0 && 0 <= o < 4
    ensures var m, n := Emit(qs, palette), |qs|;
      && 4 * (n - 1) + o < |m.vertices| && 4 * (n - 1) + o < |m.normals| && 4 * (n - 1) + o < |m.colors|
      && m.vertices[4 * (n - 1) + o] == Corners(qs[n - 1])[o]
      && m.normals[4 * (n - 1) + o] == FaceNormal(qs[n - 1])
      && m.colors[4 * (n - 1) + o] == palette[qs[n - 1].face.voxel]
  {
    var n := |qs|;
    var p := qs[..n - 1];
    var a, b := Emit(p, palette), QuadMesh(qs[n - 1], palette, 4 * (n - 1));
    EmitShape(p, palette);
    assert Emit(qs, palette) == Concat(a, b);
    assert (a.vertices + b.vertices)[4 * (n - 1) + o] == b.vertices[o];
    assert (a.normals + b.normals)[4 * (n - 1) + o] == b.normals[o];
    assert (a.colors + b.colors)[4 * (n - 1) + o] == b.colors[o];
  }

  /** Vertex, normal and colour 4k + o of the lists of `qs` are corner o of
      quad k, its face normal and the palette colour of its type. */
  lemma {:induction false} EmitVertex(qs: seq<Quad<Cell>>, palette: seq<Color>, k: int, o: int)
    requires PaletteFits(qs, palette) && 0 <= k < |qs| && 0 <= o < 4
    ensures var m := Emit(qs, palette);
      && 4 * k + o < |m.vertices| && 4 * k + o < |m.normals| && 4 * k + o < |m.colors|
      && m.vertices[4 * k + o] == Corners(qs[k])[o]
      && m.normals[4 * k + o] == FaceNormal(qs[k])
      && m.colors[4 * k + o] == palette[qs[k].face.voxel]
    decreases |qs|
  {
    if k < |qs| - 1 {
      var p := qs[..|qs| - 1];
      VertexOfInit(qs, palette, 4 * k + o);
      EmitVertex(p, palette, k, o);
      assert p[k] == qs[k];
    } else {
      VertexOfLast(qs, palette, o);
    }
  }

  /** The index pattern of a quad preceded by c vertices is its pattern for
      0 shifted by c. */
  lemma QuadIndicesShift(forwardFace: bool, c: int, r: int)
    requires 0 <= r < 6
    ensures QuadIndices(forwardFace, c)[r] == c + QuadIndices(forwardFace, 0)[r]
  {
  }

  /** Below the last quad's six entries, the index list of n quads agrees
      with that of their first n - 1. */
  lemma IndexOfInit(qs: seq<Quad<Cell>>, palette: seq<Color>, i: int)
    requires PaletteFits(qs, palette) && |qs| > 0 && 0 <= i < 6 * (|qs| - 1)
    ensures PaletteFits(qs[..|qs| - 1], palette)
    ensures var m, m' := Emit(qs, palette), Emit(qs[..|qs| - 1], palette);
      i < |m.indices| && i < |m'.indices| && m.indices[i] == m'.indices[i]
  {
    var n := |qs|;
    var p := qs[..n - 1];
    var a, b := Emit(p, palette), QuadMesh(qs[n - 1], palette, 4 * (n - 1));
    EmitShape(p, palette);
    assert Emit(qs, palette) == Concat(a, b);
    assert (a.indices + b.indices)[i] == a.indices[i];
  }

  /** Index 6(n-1) + r of the lists of n quads is entry r of the last quad's
      pattern, shifted past the 4(n-1) vertices before it. */
  lemma IndexOfLast(qs: seq<Quad<Cell>>, palette: seq<Color>, r: int)
    requires PaletteFits(qs, palette) && |qs| > 0 && 0 <= r < 6
    ensures var m, n := Emit(qs, palette), |qs|;
      6 * (n - 1) + r < |m.indices| && m.indices[6 * (n - 1) + r] == 4 * (n - 1) + QuadIndices(qs[n - 1].face.forwardFace, 0)[r]
  {
    var n := |qs|;
    var p := qs[..n - 1];
    var a, b := Emit(p, palette), QuadMesh(qs[n - 1], palette, 4 * (n - 1));
    EmitShape(p, palette);
    assert Emit(qs, palette) == Concat(a, b);
    QuadIndicesShift(qs[n - 1].face.forwardFace, 4 * (n - 1), r);
    assert (a.indices + b.indices)[6 * (n - 1) + r] == b.indices[r];
  }

  /** Index 6k + r of the lists of `qs` is entry r of quad k's pattern,
      shifted past the 4k vertices of the quads before it. */
  lemma {:induction false} EmitIndex(qs: seq<Quad<Cell>>, palette: seq<Color>, k: int, r: int)
    requires PaletteFits(qs, palette) && 0 <= k < |qs| && 0 <= r < 6
    ensures var m := Emit(qs, palette);
      6 * k + r < |m.indices| && m.indices[6 * k + r] == 4 * k + QuadIndices(qs[k].face.forwardFace, 0)[r]
    decreases |qs|
  {
    var pattern := QuadIndices(qs[k].face.forwardFace, 0);
    if k < |qs| - 1 {
      var p := qs[..|qs| - 1];
      IndexOfInit(qs, palette, 6 * k + r);
      assert p[k] == qs[k];
      EmitIndex(p, palette, k, r);
      assert Emit(p, palette).indices[6 * k + r] == 4 * k + pattern[r];
    } else {
      IndexOfLast(qs, palette, r);
      assert qs[|qs| - 1] == qs[k];
    }
  }

  /** Lists m laid out quad by quad from qs: quad k owns vertices, normals
      and colours 4k .. 4k+3 (its corners, its face normal, its type's
      colour) and indices 6k .. 6k+5 (its index pattern shifted by 4k). */
  ghost predicate Laid(m: MeshData, qs: seq<Quad<Cell>>, palette: seq<Color>) {
    && PaletteFits(qs, palette)
    && HoldsQuads(m, |qs|)
    && (forall k, o | 0 <= k < |qs| && 0 <= o < 4 ::
          && m.vertices[4 * k + o] == Corners(qs[k])[o]
          && m.normals[4 * k + o] == FaceNormal(qs[k])
          && m.colors[4 * k + o] == palette[qs[k].face.voxel])
    && (forall k, r | 0 <= k < |qs| && 0 <= r < 6 ::
          m.indices[6 * k + r] == 4 * k + QuadIndices(qs[k].face.forwardFace, 0)[r])
  }

  /** The four lists GenerateMeshData returns are laid out quad by quad. */
  lemma EmitLaid(qs: seq<Quad<Cell>>, palette: seq<Color>)
    requires PaletteFits(qs, palette)
    ensures Laid(Emit(qs, palette), qs, palette)
  {
    var m := Emit(qs, palette);
    EmitShape(qs, palette);
    forall k, o | 0 <= k < |qs| && 0 <= o < 4
      ensures m.vertices[4 * k + o] == Corners(qs[k])[o] && m.normals[4 * k + o] == FaceNormal(qs[k])
      ensures m.colors[4 * k + o] == palette[qs[k].face.voxel]
    {
      EmitVertex(qs, palette, k, o);
    }
    forall k, r | 0 <= k < |qs| && 0 <= r < 6
      ensures m.indices[6 * k + r] == 4 * k + QuadIndices(qs[k].face.forwardFace, 0)[r]
    {
      EmitIndex(qs, palette, k, r);
    }
  }

  /** Position t of laid-out lists lies in quad t / 6's block of indices. */
  lemma LaidIndex(m: MeshData, qs: seq<Quad<Cell>>, palette: seq<Color>, t: int)
    requires Laid(m, qs, palette) && 0 <= t < |m.indices|
    ensures 4 * (t / 6) <= m.indices[t] < 4 * (t / 6) + 4 <= |m.vertices|
  {
    var k, r := t / 6, t % 6;
    assert t == 6 * k + r;
    assert m.indices[6 * k + r] == 4 * k + QuadIndices(qs[k].face.forwardFace, 0)[r];
  }

  /** Every index names one of the four corners of its own quad, so in
      particular a vertex of the list. */
  lemma IndicesLocal(m: MeshData, qs: seq<Quad<Cell>>, palette: seq<Color>)
    requires Laid(m, qs, palette)
    ensures forall t | 0 <= t < |m.indices| :: 4 * (t / 6) <= m.indices[t] < 4 * (t / 6) + 4 <= |m.vertices|
  {
    forall t | 0 <= t < |m.indices|
      ensures 4 * (t / 6) <= m.indices[t] < 4 * (t / 6) + 4 <= |m.vertices|
    {
      LaidIndex(m, qs, palette, t);
    }
  }

  /** A face normal is a unit vector along the sweep axis: +axis for a
      forward face, -axis for a backward one. */
  lemma FaceNormalIsAxisUnit(q: Quad<Cell>)
    ensures FaceNormal(q).Get(q.axis) == (if q.face.forwardFace then 1 else -1)
    ensures FaceNormal(q).Get(UAxis(q.axis)) == 0 && FaceNormal(q).Get(VAxis(q.axis)) == 0
    ensures FaceNormal(q).Dot(FaceNormal(q)) == 1
  {
  }

  /** Triangle t of m (indices 3t, 3t+1, 3t+2) names three vertices that
      share one normal, and its edge cross product (b - a) x (c - a) points
      against that normal: seen from the side the normal points to, every
      triangle runs the same way round. */
  predicate WindsAgainstNormal(m: MeshData, t: int) {
    0 <= t && 3 * t + 2 < |m.indices|
    && (var i0, i1, i2 := m.indices[3 * t], m.indices[3 * t + 1], m.indices[3 * t + 2];
        0 <= i0 < |m.vertices| && 0 <= i1 < |m.vertices| && 0 <= i2 < |m.vertices|
        && i0 < |m.normals| && i1 < |m.normals| && i2 < |m.normals|
        && m.normals[i1] == m.normals[i0] && m.normals[i2] == m.normals[i0]
        && var a, b, c := m.vertices[i0], m.vertices[i1], m.vertices[i2];
           b.Minus(a).Cross(c.Minus(a)).Dot(m.normals[i0]) < 0)
  }

  /** The corners of a quad relative to its first one: 0, du, dv, du + dv,
      with du = w along the first in-plane axis and dv = h along the second. */
  function CornerOffsets(axis: Axis, w: int, h: int): seq<Vec3> {
    var du, dv := Along(UAxis(axis), w), Along(VAxis(axis), h);
    [Zero, du, dv, du.Plus(dv)]
  }

  /** The corner offsets along each sweep axis, written out. */
  lemma CornerOffsetsByAxis(axis: Axis, w: int, h: int)
    ensures axis == 0 ==> CornerOffsets(axis, w, h) == [Zero, Vec3(0, w, 0), Vec3(0, 0, h), Vec3(0, w, h)]
    ensures axis == 1 ==> CornerOffsets(axis, w, h) == [Zero, Vec3(0, 0, w), Vec3(h, 0, 0), Vec3(h, 0, w)]
    ensures axis == 2 ==> CornerOffsets(axis, w, h) == [Zero, Vec3(w, 0, 0), Vec3(0, h, 0), Vec3(w, h, 0)]
  {
  }

  /** The edge cross product of triangle (a, b, c) of offsets o. */
  function EdgeCross(o: seq<Vec3>, a: nat, b: nat, c: nat): Vec3
    requires a < |o| && b < |o| && c < |o|
  {
    o[b].Minus(o[a]).Cross(o[c].Minus(o[a]))
  }

  /** The four triangles QuadIndices can name, on each sweep axis. */
  lemma EdgeCrosses(axis: Axis, w: int, h: int)
    ensures var o := CornerOffsets(axis, w, h);
      && EdgeCross(o, 0, 2, 1) == Along(axis, -(w * h)) && EdgeCross(o, 1, 2, 3) == Along(axis, -(w * h))
      && EdgeCross(o, 0, 1, 2) == Along(axis, w * h) && EdgeCross(o, 1, 3, 2) == Along(axis, w * h)
  {
    CornerOffsetsByAxis(axis, w, h);
    var o := CornerOffsets(axis, w, h);
    var p := w * h;
    assert h * w == p && (-w) * h == -p && h * (-w) == -p;
    if axis == 0 {
      assert EdgeCross(o, 0, 2, 1) == Vec3(0, 0, h).Cross(Vec3(0, w, 0));
      assert EdgeCross(o, 1, 2, 3) == Vec3(0, -w, h).Cross(Vec3(0, 0, h));
      assert EdgeCross(o, 0, 1, 2) == Vec3(0, w, 0).Cross(Vec3(0, 0, h));
      assert EdgeCross(o, 1, 3, 2) == Vec3(0, 0, h).Cross(Vec3(0, -w, h));
    } else if axis == 1 {
      assert EdgeCross(o, 0, 2, 1) == Vec3(h, 0, 0).Cross(Vec3(0, 0, w));
      assert EdgeCross(o, 1, 2, 3) == Vec3(h, 0, -w).Cross(Vec3(h, 0, 0));
      assert EdgeCross(o, 0, 1, 2) == Vec3(0, 0, w).Cross(Vec3(h, 0, 0));
      assert EdgeCross(o, 1, 3, 2) == Vec3(h, 0, 0).Cross(Vec3(h, 0, -w));
    } else {
      assert EdgeCross(o, 0, 2, 1) == Vec3(0, h, 0).Cross(Vec3(w, 0, 0));
      assert EdgeCross(o, 1, 2, 3) == Vec3(-w, h, 0).Cross(Vec3(0, h, 0));
      assert EdgeCross(o, 0, 1, 2) == Vec3(w, 0, 0).Cross(Vec3(0, h, 0));
      assert EdgeCross(o, 1, 3, 2) == Vec3(0, h, 0).Cross(Vec3(-w, h, 0));
    }
  }

  /** Both triangles of the corner pattern, taken in the order QuadIndices
      gives, have an edge cross product of length w * h pointing against the
      face normal: -axis for a forward face, +axis for a backward one. */
  lemma OffsetWinding(axis: Axis, w: int, h: int, forwardFace: bool, s: int)
    requires 0 <= s < 2
    ensures var o, ix := CornerOffsets(axis, w, h), QuadIndices(forwardFace, 0);
      && 0 <= ix[3 * s] < 4 && 0 <= ix[3 * s + 1] < 4 && 0 <= ix[3 * s + 2] < 4
      && o[ix[3 * s + 1]].Minus(o[ix[3 * s]]).Cross(o[ix[3 * s + 2]].Minus(o[ix[3 * s]]))
         == Along(axis, if forwardFace then -(w * h) else w * h)
  {
    var o, ix := CornerOffsets(axis, w, h), QuadIndices(forwardFace, 0);
    EdgeCrosses(axis, w, h);
    assert o[ix[3 * s + 1]].Minus(o[ix[3 * s]]).Cross(o[ix[3 * s + 2]].Minus(o[ix[3 * s]]))
           == EdgeCross(o, ix[3 * s], ix[3 * s + 1], ix[3 * s + 2]);
  }

  /** Each corner of a quad is its first corner moved by the matching offset. */
  lemma CornersAreOffsets(q: Quad<Cell>)
    ensures var base, o := Corners(q)[0], CornerOffsets(q.axis, q.rect.w, q.rect.h);
      forall x | 0 <= x < 4 :: Corners(q)[x] == base.Plus(o[x])
  {
  }

  /** Both triangles of one quad wind against its normal; the dot product
      measures the quad's area w * h. */
  lemma QuadWinding(q: Quad<Cell>, s: int)
    requires 1 <= q.rect.w && 1 <= q.rect.h && 0 <= s < 2
    ensures var ix, cs := QuadIndices(q.face.forwardFace, 0), Corners(q);
      && 0 <= ix[3 * s] < 4 && 0 <= ix[3 * s + 1] < 4 && 0 <= ix[3 * s + 2] < 4
      && cs[ix[3 * s + 1]].Minus(cs[ix[3 * s]]).Cross(cs[ix[3 * s + 2]].Minus(cs[ix[3 * s]])).Dot(FaceNormal(q))
         == -(q.rect.w * q.rect.h) < 0
  {
    var w, h := q.rect.w, q.rect.h;
    assert 0 < w * h;
    var o, ix := CornerOffsets(q.axis, w, h), QuadIndices(q.face.forwardFace, 0);
    OffsetWinding(q.axis, w, h, q.face.forwardFace, s);
    CornersAreOffsets(q);
    var i0, i1, i2 := ix[3 * s], ix[3 * s + 1], ix[3 * s + 2];
    var cr := Along(q.axis, if q.face.forwardFace then -(w * h) else w * h);
    assert Corners(q)[i1].Minus(Corners(q)[i0]) == o[i1].Minus(o[i0]);
    assert Corners(q)[i2].Minus(Corners(q)[i0]) == o[i2].Minus(o[i0]);
    assert cr.Dot(FaceNormal(q)) == -(w * h) by {
      AlongDot(q.axis, if q.face.forwardFace then -(w * h) else w * h, if q.face.forwardFace then 1 else -1);
    }
  }

  /** Triangle t winds against its normal once its three entries are known. */
  lemma WindsFrom(m: MeshData, t: int, i0: int, i1: int, i2: int, a: Vec3, b: Vec3, c: Vec3, n: Vec3)
    requires 0 <= t && 3 * t + 2 < |m.indices|
    requires m.indices[3 * t] == i0 && m.indices[3 * t + 1] == i1 && m.indices[3 * t + 2] == i2
    requires 0 <= i0 < |m.vertices| && 0 <= i1 < |m.vertices| && 0 <= i2 < |m.vertices|
    requires i0 < |m.normals| && i1 < |m.normals| && i2 < |m.normals|
    requires m.vertices[i0] == a && m.vertices[i1] == b && m.vertices[i2] == c
    requires m.normals[i0] == n && m.normals[i1] == n && m.normals[i2] == n
    requires b.Minus(a).Cross(c.Minus(a)).Dot(n) < 0
    ensures WindsAgainstNormal(m, t)
  {
  }

  /** Indices 3t, 3t+1 and 3t+2 are the entries 3s, 3s+1 and 3s+2 of the
      pattern of quad k = t / 2, s = t % 2, shifted by 4k. */
  lemma LaidTriangle(m: MeshData, qs: seq<Quad<Cell>>, palette: seq<Color>, t: int)
    requires Laid(m, qs, palette) && 0 <= t < 2 * |qs|
    ensures var k, s, ix := t / 2, t % 2, QuadIndices(qs[t / 2].face.forwardFace, 0);
      && 3 * t + 2 < |m.indices|
      && m.indices[3 * t] == 4 * k + ix[3 * s]
      && m.indices[3 * t + 1] == 4 * k + ix[3 * s + 1]
      && m.indices[3 * t + 2] == 4 * k + ix[3 * s + 2]
  {
    var k, s := t / 2, t % 2;
    var ix := QuadIndices(qs[k].face.forwardFace, 0);
    assert 3 * t == 6 * k + 3 * s;
    assert m.indices[6 * k + 3 * s] == 4 * k + ix[3 * s];
    assert m.indices[6 * k + (3 * s + 1)] == 4 * k + ix[3 * s + 1];
    assert m.indices[6 * k + (3 * s + 2)] == 4 * k + ix[3 * s + 2];
  }

  /** Vertex and normal 4k + o (o < 4) are corner o and the normal of quad k. */
  lemma LaidVertex(m: MeshData, qs: seq<Quad<Cell>>, palette: seq<Color>, k: int, o: int)
    requires Laid(m, qs, palette) && 0 <= k < |qs| && 0 <= o < 4
    ensures 4 * k + o < |m.vertices| && 4 * k + o < |m.normals|
    ensures m.vertices[4 * k + o] == Corners(qs[k])[o] && m.normals[4 * k + o] == FaceNormal(qs[k])
  {
    assert m.vertices[4 * k + o] == Corners(qs[k])[o];
  }

  /** Triangle t winds against its normal in lists m that hold, at indices
      3t .. 3t+2, the entries of triangle s of quad q shifted by 4k, and at
      those vertices q's corners and normal. */
  lemma QuadTriangleWinds(m: MeshData, t: int, q: Quad<Cell>, k: int, s: int)
    requires 1 <= q.rect.w && 1 <= q.rect.h && 0 <= s < 2 && 0 <= t && 0 <= k
    requires 3 * t + 2 < |m.indices| && 4 * k + 4 <= |m.vertices| && 4 * k + 4 <= |m.normals|
    requires var ix := QuadIndices(q.face.forwardFace, 0);
      && m.indices[3 * t] == 4 * k + ix[3 * s]
      && m.indices[3 * t + 1] == 4 * k + ix[3 * s + 1]
      && m.indices[3 * t + 2] == 4 * k + ix[3 * s + 2]
    requires var ix, cs := QuadIndices(q.face.forwardFace, 0), Corners(q);
      && m.vertices[4 * k + ix[3 * s]] == cs[ix[3 * s]]
      && m.vertices[4 * k + ix[3 * s + 1]] == cs[ix[3 * s + 1]]
      && m.vertices[4 * k + ix[3 * s + 2]] == cs[ix[3 * s + 2]]
      && m.normals[4 * k + ix[3 * s]] == FaceNormal(q)
      && m.normals[4 * k + ix[3 * s + 1]] == FaceNormal(q)
      && m.normals[4 * k + ix[3 * s + 2]] == FaceNormal(q)
    ensures WindsAgainstNormal(m, t)
  {
    var ix, cs := QuadIndices(q.face.forwardFace, 0), Corners(q);
    QuadWinding(q, s);
    var o0, o1, o2 := ix[3 * s], ix[3 * s + 1], ix[3 * s + 2];
    WindsFrom(m, t, 4 * k + o0, 4 * k + o1, 4 * k + o2, cs[o0], cs[o1], cs[o2], FaceNormal(q));
  }

  /** Triangle t, half t % 2 of quad t / 2, winds against its normal. */
  lemma TriangleWinds(m: MeshData, qs: seq<Quad<Cell>>, palette: seq<Color>, t: int)
    requires Laid(m, qs, palette) && 0 <= t < 2 * |qs|
    requires 1 <= qs[t / 2].rect.w && 1 <= qs[t / 2].rect.h
    ensures WindsAgainstNormal(m, t)
  {
    var k, s := t / 2, t % 2;
    var ix := QuadIndices(qs[k].face.forwardFace, 0);
    LaidTriangle(m, qs, palette, t);
    LaidVertex(m, qs, palette, k, ix[3 * s]);
    LaidVertex(m, qs, palette, k, ix[3 * s + 1]);
    LaidVertex(m, qs, palette, k, ix[3 * s + 2]);
    LaidVertex(m, qs, palette, k, 3);
    QuadTriangleWinds(m, t, qs[k], k, s);
  }

  /** Every triangle of laid-out lists winds against the normal of its vertices. */
  lemma Winding(m: MeshData, qs: seq<Quad<Cell>>, palette: seq<Color>)
    requires Laid(m, qs, palette)
    requires forall k | 0 <= k < |qs| :: 1 <= qs[k].rect.w && 1 <= qs[k].rect.h
    ensures forall t | 0 <= t < |m.indices| / 3 :: WindsAgainstNormal(m, t)
  {
    forall t | 0 <= t < |m.indices| / 3
      ensures WindsAgainstNormal(m, t)
    {
      TriangleWinds(m, qs, palette, t);
    }
  }

  /** A point of the chunk's closed [0, size]^3 box, the extent of its mesh. */
  predicate InChunkBox(p: Vec3, size: int) {
    0 <= p.x <= size && 0 <= p.y <= size && 0 <= p.z <= size
  }

  /** The corners of a quad of slice plane (-1 <= plane < size) whose
      rectangle fits the size x size mask lie on the chunk's box. */
  lemma CornersInChunkBox(q: Quad<Cell>, size: nat)
    requires -1 <= q.plane < size && Fits(q.rect, size)
    ensures forall o | 0 <= o < 4 :: InChunkBox(Corners(q)[o], size)
  {
    var b := SliceCoord(q.axis, q.plane + 1, q.rect.i, q.rect.j);
    assert b.x == b.Get(0) && b.y == b.Get(1) && b.z == b.Get(2);
  }

  /** Every vertex of laid-out lists lies on the chunk's box. */
  lemma InChunkBoxAll(m: MeshData, qs: seq<Quad<Cell>>, palette: seq<Color>, size: nat)
    requires Laid(m, qs, palette)
    requires forall k | 0 <= k < |qs| :: -1 <= qs[k].plane < size && Fits(qs[k].rect, size)
    ensures forall t | 0 <= t < |m.vertices| :: InChunkBox(m.vertices[t], size)
  {
    forall t | 0 <= t < |m.vertices|
      ensures InChunkBox(m.vertices[t], size)
    {
      var k, o := t / 4, t % 4;
      assert t == 4 * k + o;
      CornersInChunkBox(qs[k], size);
      LaidVertex(m, qs, palette, k, o);
    }
  }

  /** Lists laid out from quads that sit on slices -1 .. size-1 and fit the
      mask: every index names a vertex, every triangle winds against its
      normal and every vertex lies on the chunk's box. */
  lemma LaidMesh(m: MeshData, qs: seq<Quad<Cell>>, palette: seq<Color>, size: nat)
    requires Laid(m, qs, palette)
    requires forall k | 0 <= k < |qs| :: -1 <= qs[k].plane < size && Fits(qs[k].rect, size)
    ensures forall t | 0 <= t < |m.indices| :: 0 <= m.indices[t] < |m.vertices|
    ensures forall t | 0 <= t < |m.indices| / 3 :: WindsAgainstNormal(m, t)
    ensures forall t | 0 <= t < |m.vertices| :: InChunkBox(m.vertices[t], size)
  {
    forall t | 0 <= t < |m.indices|
      ensures 0 <= m.indices[t] < |m.vertices|
    {
      LaidIndex(m, qs, palette, t);
    }
    Winding(m, qs, palette);
    InChunkBoxAll(m, qs, palette, size);
  }

  /** The lists GenerateMeshData returns on success: laid out quad by quad,
      every index naming a vertex, every triangle wound against its normal,
      every vertex on the chunk's box. */
  lemma MeshOfExactCover(buf: seq<byte>, size: nat, palette: seq<Color>, qs: seq<Quad<Cell>>)
    requires |buf| == Cube(size + 2) && ExactCover(buf, size, qs) && PaletteFits(qs, palette)
    ensures var m := Emit(qs, palette);
      && Laid(m, qs, palette)
      && (forall t | 0 <= t < |m.indices| :: 0 <= m.indices[t] < |m.vertices|)
      && (forall t | 0 <= t < |m.indices| / 3 :: WindsAgainstNormal(m, t))
      && (forall t | 0 <= t < |m.vertices| :: InChunkBox(m.vertices[t], size))
  {
    EmitLaid(qs, palette);
    LaidMesh(Emit(qs, palette), qs, palette, size);
  }
}
