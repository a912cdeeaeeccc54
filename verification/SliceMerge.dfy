/** The shared theory of the greedy merge step of both meshers: a size x size
    mask of face cells, stored row-major (cell (u, v) at v * size + u), is
    consumed by rectangles of equal cells. The central notion is CoverCount,
    the number of emitted quads of one slice that cover a cell; a finished
    merge covers every non-empty cell exactly once and nothing else. */
module SliceMerge {
  import opened Geometry

  /** The w x h block of mask cells whose first cell is (i, j). */
  datatype Rect = Rect(i: int, j: int, w: int, h: int)

  predicate InRect(r: Rect, u: int, v: int) {
    r.i <= u < r.i + r.w && r.j <= v < r.j + r.h
  }

  /** A non-empty rectangle inside a size x size mask. */
  predicate Fits(r: Rect, size: int) {
    0 <= r.i && 1 <= r.w && r.i + r.w <= size && 0 <= r.j && 1 <= r.h && r.j + r.h <= size
  }

  /** One merged face: the rectangle `rect` of the mask of slice `plane`
      along `axis`, all of whose cells held `face`. */
  datatype Quad<L> = Quad(axis: Axis, plane: int, rect: Rect, face: L)

  predicate Covers<L>(q: Quad<L>, axis: Axis, plane: int, u: int, v: int) {
    q.axis == axis && q.plane == plane && InRect(q.rect, u, v)
  }

  /** The index of the first cell of row v of a mask with rows of `size`
      cells, counted row by row: v * size. */
  function RowStart(size: nat, v: nat): nat {
    if v == 0 then 0 else RowStart(size, v - 1) + size
  }

  /** Row j + h starts h rows after row j, the `h * size` of the source's
      index expressions. */
  lemma {:induction false} RowOffset(size: nat, j: nat, h: nat)
    ensures RowStart(size, j + h) == RowStart(size, j) + h * size
    decreases h
  {
    if h > 0 {
      RowOffset(size, j, h - 1);
    }
  }

  /** A later row starts at least one full row further on. */
  lemma {:induction false} RowStartMonotone(size: nat, v: nat, v': nat)
    requires v < v'
    ensures RowStart(size, v) + size <= RowStart(size, v')
    decreases v'
  {
    if v + 1 < v' {
      RowStartMonotone(size, v, v' - 1);
    }
  }

  /** Row-major storage keeps cells in scan order: the index of a cell met
      earlier in the scan is smaller, and every index lies in the mask. */
  lemma CellIndexOrder(size: nat, u: int, v: int, u': int, v': int)
    requires 0 <= u < size && 0 <= v < size && 0 <= u' < size && 0 <= v' < size
    requires v < v' || (v == v' && u < u')
    ensures 0 <= RowStart(size, v) + u < RowStart(size, v') + u' < size * size
  {
    CellIndexBound(size, u', v');
    if v < v' {
      RowStartMonotone(size, v, v');
    }
  }

  lemma CellIndexBound(size: nat, u: int, v: int)
    requires 0 <= u < size && 0 <= v < size
    ensures 0 <= RowStart(size, v) + u < size * size
  {
    RowStartMonotone(size, v, size);
    RowOffset(size, 0, size);
  }

  /** Distinct cells are stored at distinct indices. */
  lemma CellIndexInjective(size: nat, u: int, v: int, u': int, v': int)
    requires 0 <= u < size && 0 <= v < size && 0 <= u' < size && 0 <= v' < size
    requires u != u' || v != v'
    ensures RowStart(size, v) + u != RowStart(size, v') + u'
  {
    if v < v' || (v == v' && u < u') {
      CellIndexOrder(size, u, v, u', v');
    } else {
      CellIndexOrder(size, u', v', u, v);
    }
  }

  /** Cell (u, v) of a row-major mask. */
  function At<L>(m: seq<L>, size: nat, u: int, v: int): L
    requires |m| == size * size && 0 <= u < size && 0 <= v < size
  {
    CellIndexBound(size, u, v);
    m[RowStart(size, v) + u]
  }

  /** Writing one cell of a mask leaves every other cell as it was. */
  lemma AtUpdateOther<L>(m: seq<L>, size: nat, u: int, v: int, x: L, u': int, v': int)
    requires |m| == size * size && 0 <= u < size && 0 <= v < size && 0 <= u' < size && 0 <= v' < size
    requires u != u' || v != v'
    ensures 0 <= RowStart(size, v) + u < |m|
    ensures At(m[RowStart(size, v) + u := x], size, u', v') == At(m, size, u', v')
  {
    CellIndexBound(size, u, v);
    CellIndexBound(size, u', v');
    CellIndexInjective(size, u, v, u', v');
  }

  /** The width run the merge grows from cell (u, v): the number of
      consecutive cells of row v, from column u on, that equal c. */
  function RowRun<L(==)>(m: seq<L>, size: nat, u: nat, v: int, c: L): (n: nat)
    requires |m| == size * size && u <= size && 0 <= v < size
    ensures u + n <= size
    ensures forall u' | u <= u' < u + n :: At(m, size, u', v) == c
    ensures u + n == size || At(m, size, u + n, v) != c
    decreases size - u
  {
    if u == size || At(m, size, u, v) != c then 0 else 1 + RowRun(m, size, u + 1, v, c)
  }

  /** How many quads of `qs` lie in slice (axis, plane) and cover cell (u, v). */
  function CoverCount<L>(qs: seq<Quad<L>>, axis: Axis, plane: int, u: int, v: int): nat
  {
    if |qs| == 0 then 0
    else CoverCount(qs[..|qs| - 1], axis, plane, u, v) + (if Covers(qs[|qs| - 1], axis, plane, u, v) then 1 else 0)
  }

  /** Counting over a concatenation adds the counts. */
  lemma {:induction false} CoverCountAppend<L>(qs: seq<Quad<L>>, rs: seq<Quad<L>>, axis: Axis, plane: int, u: int, v: int)
    ensures CoverCount(qs + rs, axis, plane, u, v) == CoverCount(qs, axis, plane, u, v) + CoverCount(rs, axis, plane, u, v)
    decreases |rs|
  {
    if |rs| == 0 {
      assert qs + rs == qs;
    } else {
      var rs' := rs[..|rs| - 1];
      assert (qs + rs)[..|qs + rs| - 1] == qs + rs';
      CoverCountAppend(qs, rs', axis, plane, u, v);
    }
  }

  /** Quads of other slices contribute nothing to the count of slice (a, p). */
  lemma {:induction false} CoverCountElsewhere<L>(rs: seq<Quad<L>>, a: Axis, p: int, u: int, v: int)
    requires forall k | 0 <= k < |rs| :: rs[k].axis != a || rs[k].plane != p
    ensures CoverCount(rs, a, p, u, v) == 0
    decreases |rs|
  {
    if |rs| != 0 {
      CoverCountElsewhere(rs[..|rs| - 1], a, p, u, v);
    }
  }

  /** A cell inside one of the quads has a positive count. */
  lemma {:induction false} CoverCountOfMember<L>(qs: seq<Quad<L>>, k: int, u: int, v: int)
    requires 0 <= k < |qs| && InRect(qs[k].rect, u, v)
    ensures CoverCount(qs, qs[k].axis, qs[k].plane, u, v) >= 1
    decreases |qs|
  {
    if k < |qs| - 1 {
      CoverCountOfMember(qs[..|qs| - 1], k, u, v);
    }
  }

  /** A cell with a positive count lies in one of the quads. */
  lemma {:induction false} CoverCountPositive<L>(qs: seq<Quad<L>>, axis: Axis, plane: int, u: int, v: int)
    requires CoverCount(qs, axis, plane, u, v) != 0
    ensures exists k | 0 <= k < |qs| :: Covers(qs[k], axis, plane, u, v)
    decreases |qs|
  {
    var n := |qs|;
    if !Covers(qs[n - 1], axis, plane, u, v) {
      var p := qs[..n - 1];
      CoverCountPositive(p, axis, plane, u, v);
      var k :| 0 <= k < |p| && Covers(p[k], axis, plane, u, v);
      assert p[k] == qs[k];
    }
  }

  /** A cell inside two of the quads of one slice is counted at least twice. */
  lemma {:induction false} CoverCountOfPair<L>(qs: seq<Quad<L>>, k: int, k': int, u: int, v: int)
    requires 0 <= k < k' < |qs| && InRect(qs[k].rect, u, v) && InRect(qs[k'].rect, u, v)
    requires qs[k].axis == qs[k'].axis && qs[k].plane == qs[k'].plane
    ensures CoverCount(qs, qs[k].axis, qs[k].plane, u, v) >= 2
    decreases |qs|
  {
    var p := qs[..|qs| - 1];
    assert p[k] == qs[k];
    if k' < |qs| - 1 {
      assert p[k'] == qs[k'];
      CoverCountOfPair(p, k, k', u, v);
    } else {
      CoverCountOfMember(p, k, u, v);
    }
  }

  /** The number of quads of slice `plane` along `axis`. */
  function SliceCount<L>(qs: seq<Quad<L>>, axis: Axis, plane: int): nat
  {
    if |qs| == 0 then 0
    else SliceCount(qs[..|qs| - 1], axis, plane) + (if qs[|qs| - 1].axis == axis && qs[|qs| - 1].plane == plane then 1 else 0)
  }

  /** A slice holding quad k counts at least one quad. */
  lemma {:induction false} SliceCountOfMember<L>(qs: seq<Quad<L>>, k: int)
    requires 0 <= k < |qs|
    ensures SliceCount(qs, qs[k].axis, qs[k].plane) >= 1
    decreases |qs|
  {
    if k < |qs| - 1 {
      var p := qs[..|qs| - 1];
      assert p[k] == qs[k];
      SliceCountOfMember(p, k);
    }
  }

  /** A slice holding two distinct quads k and k' counts at least two. */
  lemma {:induction false} SliceCountOfPair<L>(qs: seq<Quad<L>>, k: int, k': int)
    requires 0 <= k < k' < |qs|
    ensures qs[k].axis == qs[k'].axis && qs[k].plane == qs[k'].plane ==> SliceCount(qs, qs[k].axis, qs[k].plane) >= 2
    decreases |qs|
  {
    var p := qs[..|qs| - 1];
    assert p[k] == qs[k];
    if k' < |qs| - 1 {
      assert p[k'] == qs[k'];
      SliceCountOfPair(p, k, k');
    } else {
      SliceCountOfMember(p, k);
    }
  }

  /** When every quad of a slice covers cell (u, v), the slice has as many
      quads as cover that cell. */
  lemma {:induction false} SliceCountAtCommonCell<L>(qs: seq<Quad<L>>, axis: Axis, plane: int, u: int, v: int)
    requires forall k | 0 <= k < |qs| && qs[k].axis == axis && qs[k].plane == plane :: InRect(qs[k].rect, u, v)
    ensures SliceCount(qs, axis, plane) == CoverCount(qs, axis, plane, u, v)
    decreases |qs|
  {
    if |qs| > 0 {
      var p := qs[..|qs| - 1];
      forall k | 0 <= k < |p| && p[k].axis == axis && p[k].plane == plane
        ensures InRect(p[k].rect, u, v)
      {
        assert p[k] == qs[k];
      }
      SliceCountAtCommonCell(p, axis, plane, u, v);
    }
  }

  /** A slice whose only quad `q` covers cell (u, v) exactly once holds that
      one quad. */
  lemma OnlyQuadOfSlice<L>(qs: seq<Quad<L>>, axis: Axis, plane: int, q: Quad<L>, u: int, v: int)
    requires q.axis == axis && q.plane == plane && InRect(q.rect, u, v)
    requires exists k | 0 <= k < |qs| :: qs[k] == q
               && forall k' | 0 <= k' < |qs| && qs[k'].axis == axis && qs[k'].plane == plane :: k' == k
    requires CoverCount(qs, axis, plane, u, v) == 1
    ensures SliceCount(qs, axis, plane) == 1
    ensures forall k | 0 <= k < |qs| && qs[k].axis == axis && qs[k].plane == plane :: qs[k] == q
  {
    var k :| 0 <= k < |qs| && qs[k] == q
             && forall k' | 0 <= k' < |qs| && qs[k'].axis == axis && qs[k'].plane == plane :: k' == k;
    forall k' | 0 <= k' < |qs| && qs[k'].axis == axis && qs[k'].plane == plane
      ensures qs[k'] == q && InRect(qs[k'].rect, u, v)
    {
      assert k' == k;
    }
    SliceCountAtCommonCell(qs, axis, plane, u, v);
  }

  /** When every quad lies in plane lo or plane hi, the quads are those of the
      six slices (axis, lo) and (axis, hi). */
  lemma {:induction false} TwoPlanesCount<L>(qs: seq<Quad<L>>, lo: int, hi: int)
    requires lo != hi
    requires forall k | 0 <= k < |qs| :: qs[k].plane == lo || qs[k].plane == hi
    ensures |qs| == SliceCount(qs, 0, lo) + SliceCount(qs, 0, hi) + SliceCount(qs, 1, lo)
                  + SliceCount(qs, 1, hi) + SliceCount(qs, 2, lo) + SliceCount(qs, 2, hi)
    decreases |qs|
  {
    if |qs| > 0 {
      var p := qs[..|qs| - 1];
      forall k | 0 <= k < |p|
        ensures p[k].plane == lo || p[k].plane == hi
      {
        assert p[k] == qs[k];
      }
      TwoPlanesCount(p, lo, hi);
    }
  }

  /** The invariant of the merge scan over one slice. m0 is the mask as built,
      m the mask now, qs the quads emitted so far for this slice: every cell of
      m is still the built cell or has been cleared; a built face is covered by
      exactly one quad when it has been cleared and by none otherwise; every
      quad is a non-empty rectangle inside the mask all of whose built cells
      carry its face. */
  ghost predicate Consistent<L>(m0: seq<L>, m: seq<L>, qs: seq<Quad<L>>, size: nat, axis: Axis, plane: int, empty: L)
  {
    && |m0| == size * size
    && |m| == size * size
    && ClearedOrBuilt(m0, m, size, empty)
    && CoveredOnceWhenCleared(m0, m, qs, size, axis, plane, empty)
    && QuadsInSlice(qs, size, axis, plane, empty)
    && QuadsUniform(m0, qs, size)
  }

  /** Every cell is still the built cell or has been cleared. */
  ghost predicate ClearedOrBuilt<L>(m0: seq<L>, m: seq<L>, size: nat, empty: L)
    requires |m0| == size * size && |m| == size * size
  {
    forall u, v | 0 <= u < size && 0 <= v < size ::
      At(m, size, u, v) == At(m0, size, u, v) || At(m, size, u, v) == empty
  }

  /** A built face is covered once when it has been cleared, else not at all. */
  ghost predicate CoveredOnceWhenCleared<L>(m0: seq<L>, m: seq<L>, qs: seq<Quad<L>>, size: nat, axis: Axis, plane: int, empty: L)
    requires |m0| == size * size && |m| == size * size
  {
    forall u, v | 0 <= u < size && 0 <= v < size ::
      CoverCount(qs, axis, plane, u, v)
      == if At(m0, size, u, v) != empty && At(m, size, u, v) != At(m0, size, u, v) then 1 else 0
  }

  /** Every quad is a non-empty rectangle of this slice with a face. */
  ghost predicate QuadsInSlice<L>(qs: seq<Quad<L>>, size: nat, axis: Axis, plane: int, empty: L)
  {
    forall k | 0 <= k < |qs| ::
      qs[k].axis == axis && qs[k].plane == plane && Fits(qs[k].rect, size) && qs[k].face != empty
  }

  /** Every built cell of a quad's rectangle carries the quad's face. */
  ghost predicate QuadsUniform<L>(m0: seq<L>, qs: seq<Quad<L>>, size: nat)
    requires |m0| == size * size
  {
    forall k, u, v | 0 <= k < |qs| && 0 <= u < size && 0 <= v < size && InRect(qs[k].rect, u, v) ::
      At(m0, size, u, v) == qs[k].face
  }

  /** Emitting the rectangle r, all of whose current cells equal the face c,
      and clearing those cells keeps the invariant. */
  lemma ConsistentStep<L>(m0: seq<L>, m: seq<L>, m': seq<L>, qs: seq<Quad<L>>, size: nat, axis: Axis, plane: int, empty: L, r: Rect, c: L)
    requires Consistent(m0, m, qs, size, axis, plane, empty)
    requires Fits(r, size) && c != empty
    requires forall u, v | 0 <= u < size && 0 <= v < size && InRect(r, u, v) :: At(m, size, u, v) == c
    requires |m'| == size * size
    requires forall u, v | 0 <= u < size && 0 <= v < size ::
               At(m', size, u, v) == if InRect(r, u, v) then empty else At(m, size, u, v)
    ensures Consistent(m0, m', qs + [Quad(axis, plane, r, c)], size, axis, plane, empty)
  {
    var qs' := qs + [Quad(axis, plane, r, c)];
    assert qs'[..|qs'| - 1] == qs;
    forall u, v | 0 <= u < size && 0 <= v < size
      ensures CoverCount(qs', axis, plane, u, v)
              == if At(m0, size, u, v) != empty && At(m', size, u, v) != At(m0, size, u, v) then 1 else 0
    {
      if InRect(r, u, v) {
        assert At(m, size, u, v) == At(m0, size, u, v);
      }
    }
  }

  /** Every cell before (i, j) in scan order has been cleared or was empty. */
  ghost predicate ClearedBefore<L>(m: seq<L>, size: nat, i: int, j: int, empty: L)
    requires |m| == size * size
  {
    forall u, v | 0 <= u < size && 0 <= v < size && (v < j || (v == j && u < i)) :: At(m, size, u, v) == empty
  }

  /** The width loop: grow the run of cells equal to the start cell along
      row j; the result is exactly the maximal run. */
  method WidthRun<L(==)>(mask: array<L>, size: nat, i: nat, j: nat, n: nat) returns (w: nat)
    requires mask.Length == size * size && i < size && j < size && n == RowStart(size, j) + i
    ensures w == RowRun(mask[..], size, i, j, At(mask[..], size, i, j))
    ensures 1 <= w && i + w <= size
  {
    CellIndexBound(size, size - 1, j);
    var cell := mask[n];
    w := 1;
    while i + w < size && mask[n + w] == cell
      invariant 1 <= w && i + w <= size
      invariant RowRun(mask[..], size, i, j, cell) == w + RowRun(mask[..], size, i + w, j, cell)
    {
      w := w + 1;
    }
  }

  /** Cells i .. i+w-1 of row v all equal c. */
  ghost predicate RowMatches<L>(m: seq<L>, size: nat, i: nat, w: nat, v: nat, c: L)
    requires |m| == size * size && i + w <= size && v < size
  {
    forall u | i <= u < i + w :: At(m, size, u, v) == c
  }

  /** The height loop: add rows below while the whole width matches the
      start cell. The block of h rows all match, and the next row (if any)
      has a mismatching cell within the width. */
  method HeightRun<L(==)>(mask: array<L>, size: nat, i: nat, j: nat, n: nat, w: nat) returns (h: nat)
    requires mask.Length == size * size && j < size && n == RowStart(size, j) + i
    requires 1 <= w && i + w <= size
    requires RowMatches(mask[..], size, i, w, j, At(mask[..], size, i, j))
    ensures 1 <= h && j + h <= size
    ensures forall u, v | i <= u < i + w && j <= v < j + h :: At(mask[..], size, u, v) == At(mask[..], size, i, j)
    ensures j + h == size || !RowMatches(mask[..], size, i, w, j + h, At(mask[..], size, i, j))
  {
    CellIndexBound(size, i, j);
    var cell := mask[n];
    h := 1;
    var done := false;
    while j + h < size
      invariant 1 <= h && j + h <= size && !done
      invariant forall u, v | i <= u < i + w && j <= v < j + h :: At(mask[..], size, u, v) == cell
    {
      ghost var row := j + h;
      for k := 0 to w
        invariant !done
        invariant RowMatches(mask[..], size, i, k, row, cell)
      {
        CellIndexBound(size, i + k, row);
        RowOffset(size, j, h);
        if mask[n + k + h * size] != cell {
          done := true;
          assert At(mask[..], size, i + k, row) != cell;
          break;
        }
      }
      if done {
        break;
      }
      h := h + 1;
    }
  }
  /** The rectangle the merge scan grows from cell (i, j): the whole run of
      the cell's value along row j, then every following row that matches
      it over that width, stopping at the first row that does not. */
  method MaximalRect<L(==)>(mask: array<L>, size: nat, i: nat, j: nat, n: nat) returns (r: Rect)
    requires mask.Length == size * size && i < size && j < size && n == RowStart(size, j) + i
    ensures r.i == i && r.j == j && Fits(r, size)
    ensures r.w == RowRun(mask[..], size, i, j, At(mask[..], size, i, j))
    ensures forall u, v | 0 <= u < size && 0 <= v < size && InRect(r, u, v) :: At(mask[..], size, u, v) == At(mask[..], size, i, j)
    ensures j + r.h == size || !RowMatches(mask[..], size, i, r.w, j + r.h, At(mask[..], size, i, j))
  {
    var w := WidthRun(mask, size, i, j, n);
    var h := HeightRun(mask, size, i, j, n, w);
    r := Rect(i, j, w, h);
  }


  /** Zero out the rectangle just covered; every other cell is unchanged. */
  method ClearRect<L>(mask: array<L>, size: nat, r: Rect, n: int, empty: L)
    requires mask.Length == size * size && Fits(r, size) && n == RowStart(size, r.j) + r.i
    modifies mask
    ensures forall u, v | 0 <= u < size && 0 <= v < size ::
              At(mask[..], size, u, v) == if InRect(r, u, v) then empty else At(old(mask[..]), size, u, v)
  {
    for l := 0 to r.h
      invariant forall u, v | 0 <= u < size && 0 <= v < size ::
                  At(mask[..], size, u, v)
                  == if InRect(Rect(r.i, r.j, r.w, l), u, v) then empty else At(old(mask[..]), size, u, v)
    {
      for k := 0 to r.w
        invariant forall u, v | 0 <= u < size && 0 <= v < size ::
                    At(mask[..], size, u, v)
                    == if InRect(Rect(r.i, r.j, r.w, l), u, v) || (v == r.j + l && r.i <= u < r.i + k)
                       then empty else At(old(mask[..]), size, u, v)
      {
        CellIndexBound(size, r.i + k, r.j + l);
        RowOffset(size, r.j, l);
        ghost var before := mask[..];
        mask[n + k + l * size] := empty;
        assert mask[..] == before[RowStart(size, r.j + l) + r.i + k := empty];
        forall u, v | 0 <= u < size && 0 <= v < size && (u != r.i + k || v != r.j + l)
          ensures At(mask[..], size, u, v) == At(before, size, u, v)
        {
          CellIndexInjective(size, u, v, r.i + k, r.j + l);
          CellIndexBound(size, u, v);
          assert At(mask[..], size, u, v) == mask[..][RowStart(size, v) + u];
          assert At(before, size, u, v) == before[RowStart(size, v) + u];
        }
      }
    }
  }

  // ---------------------------------------------------------------------------
  // The greedy choice

  /** The built mask m0 as a function of the cell, `empty` outside the mask. */
  function MaskCells<L>(m0: seq<L>, size: nat, empty: L): (int, int) -> L {
    (u: int, v: int) => if |m0| == size * size && 0 <= u < size && 0 <= v < size then At(m0, size, u, v) else empty
  }

  /** Cell (u, v) of the slice holds c and no quad of `earlier` covers it:
      the merge scan still sees c there. */
  ghost predicate Open<L>(cells: (int, int) -> L, earlier: seq<Quad<L>>, axis: Axis, plane: int, u: int, v: int, c: L) {
    cells(u, v) == c && CoverCount(earlier, axis, plane, u, v) == 0
  }

  /** Quad q is the greedy choice after the quads `earlier` of its slice,
      whose cells are `cells`: its first cell is the first one in scan order
      that holds a face no earlier quad covers; its width is the whole run of
      cells still open for its face along that row; and it grows row by row
      until the mask ends or the next row has a cell under the quad that is
      not open for its face. */
  ghost predicate GreedyQuad<L>(cells: (int, int) -> L, earlier: seq<Quad<L>>, q: Quad<L>, size: int, empty: L) {
    var r := q.rect;
    && (forall u, v | 0 <= u < size && 0 <= v < size && (v < r.j || (v == r.j && u < r.i)) ::
          cells(u, v) == empty || CoverCount(earlier, q.axis, q.plane, u, v) != 0)
    && (r.i + r.w == size || !Open(cells, earlier, q.axis, q.plane, r.i + r.w, r.j, q.face))
    && (r.j + r.h == size || !RowOpen(cells, earlier, q.axis, q.plane, r.i, r.w, r.j + r.h, q.face))
  }

  /** Every cell of row v from column i on, w of them, is open for c. */
  ghost predicate RowOpen<L>(cells: (int, int) -> L, earlier: seq<Quad<L>>, axis: Axis, plane: int, i: int, w: int, v: int, c: L) {
    forall u | i <= u < i + w :: Open(cells, earlier, axis, plane, u, v, c)
  }

  /** Every quad of qs is the greedy choice after the quads before it;
      stated one quad at a time, from the last, and given for every quad by
      GreedyAt. */
  ghost predicate Greedy<L>(cells: (int, int) -> L, qs: seq<Quad<L>>, size: int, empty: L)
    decreases |qs|
  {
    if qs == [] then true
    else
      var n := |qs| - 1;
      Greedy(cells, qs[..n], size, empty) && GreedyQuad(cells, qs[..n], qs[n], size, empty)
  }

  /** A greedy choice after a greedy sequence extends it. */
  lemma GreedyAppend<L>(cells: (int, int) -> L, qs: seq<Quad<L>>, q: Quad<L>, size: int, empty: L)
    requires Greedy(cells, qs, size, empty) && GreedyQuad(cells, qs, q, size, empty)
    ensures Greedy(cells, qs + [q], size, empty)
  {
    var all := qs + [q];
    assert all[..|qs|] == qs && all[|qs|] == q;
  }

  lemma {:induction false} GreedyAt<L>(cells: (int, int) -> L, qs: seq<Quad<L>>, size: int, empty: L, k: int)
    requires Greedy(cells, qs, size, empty) && 0 <= k < |qs|
    ensures GreedyQuad(cells, qs[..k], qs[k], size, empty)
    decreases |qs|
  {
    var n := |qs| - 1;
    if k < n {
      GreedyAt(cells, qs[..n], size, empty, k);
      assert qs[..n][..k] == qs[..k] && qs[..n][k] == qs[k];
    }
  }

  /** The greedy choice depends only on the cells inside the mask and on how
      often each is covered. */
  lemma GreedyQuadTransfer<L>(cells: (int, int) -> L, cells': (int, int) -> L, earlier: seq<Quad<L>>,
                              earlier': seq<Quad<L>>, q: Quad<L>, size: nat, empty: L)
    requires Fits(q.rect, size)
    requires forall u, v | 0 <= u < size && 0 <= v < size :: cells(u, v) == cells'(u, v)
    requires forall u, v | 0 <= u < size && 0 <= v < size ::
               CoverCount(earlier, q.axis, q.plane, u, v) == CoverCount(earlier', q.axis, q.plane, u, v)
    requires GreedyQuad(cells, earlier, q, size, empty)
    ensures GreedyQuad(cells', earlier', q, size, empty)
  {
    var r := q.rect;
    if r.j + r.h != size {
      assert !RowOpen(cells, earlier, q.axis, q.plane, r.i, r.w, r.j + r.h, q.face);
      var u :| r.i <= u < r.i + r.w && !Open(cells, earlier, q.axis, q.plane, u, r.j + r.h, q.face);
      assert !Open(cells', earlier', q.axis, q.plane, u, r.j + r.h, q.face);
    }
  }

  /** The quads of slice (axis, plane) among qs cover every face of `cells`
      exactly once, lie over cells of their own face, and are each the
      greedy choice after the quads before them. */
  ghost predicate GreedySlice<L>(cells: (int, int) -> L, qs: seq<Quad<L>>, size: nat, axis: Axis, plane: int, empty: L) {
    && (forall u, v | 0 <= u < size && 0 <= v < size ::
          CoverCount(qs, axis, plane, u, v) == if cells(u, v) != empty then 1 else 0)
    && (forall k | 0 <= k < |qs| && qs[k].axis == axis && qs[k].plane == plane ::
          Fits(qs[k].rect, size) && qs[k].face != empty && GreedyQuad(cells, qs[..k], qs[k], size, empty))
    && (forall k, u, v | 0 <= k < |qs| && qs[k].axis == axis && qs[k].plane == plane && 0 <= u < size && 0 <= v < size
                         && InRect(qs[k].rect, u, v) :: cells(u, v) == qs[k].face)
  }

  /** The faces of a slice all holding c inside the rectangle R and nothing
      outside it: every quad of the slice in a greedy exact cover is R. */
  lemma {:induction false} GreedyInRectangle<L>(cells: (int, int) -> L, qs: seq<Quad<L>>, size: nat, axis: Axis, plane: int,
                                                empty: L, R: Rect, c: L, k: int)
    requires Fits(R, size) && c != empty
    requires forall u, v | 0 <= u < size && 0 <= v < size :: cells(u, v) == if InRect(R, u, v) then c else empty
    requires GreedySlice(cells, qs, size, axis, plane, empty)
    requires 0 <= k < |qs| && qs[k].axis == axis && qs[k].plane == plane
    ensures qs[k] == Quad(axis, plane, R, c)
    decreases k
  {
    var q := qs[k];
    var r := q.rect;
    assert InRect(r, r.i, r.j);
    forall k' | 0 <= k' < k
      ensures qs[k'].axis != axis || qs[k'].plane != plane
    {
      if qs[k'].axis == axis && qs[k'].plane == plane {
        GreedyInRectangle(cells, qs, size, axis, plane, empty, R, c, k');
        CoverCountOfPair(qs, k', k, r.i, r.j);
        assert false;
      }
    }
    var earlier := qs[..k];
    forall u, v ensures CoverCount(earlier, axis, plane, u, v) == 0 {
      CoverCountElsewhere(earlier, axis, plane, u, v);
    }
    assert GreedyQuad(cells, earlier, q, size, empty);
    // The first cell: R's first cell is a face no earlier quad covers.
    assert InRect(R, R.i, R.j) && cells(R.i, R.j) == c;
    assert cells(r.i, r.j) == q.face && InRect(R, r.i, r.j);
    assert CoverCount(earlier, q.axis, q.plane, R.i, R.j) == 0;
    assert r.i == R.i && r.j == R.j;
    // The width: the run ends where R's row does.
    assert InRect(r, r.i + r.w - 1, r.j) && cells(r.i + r.w - 1, r.j) == c;
    if r.i + r.w < size {
      assert !Open(cells, earlier, axis, plane, r.i + r.w, r.j, q.face);
    }
    assert r.w == R.w;
    // The height: the block ends where R does.
    assert InRect(r, r.i, r.j + r.h - 1) && cells(r.i, r.j + r.h - 1) == c;
    if r.j + r.h < size {
      assert !RowOpen(cells, earlier, axis, plane, r.i, r.w, r.j + r.h, q.face);
      var u :| r.i <= u < r.i + r.w && !Open(cells, earlier, axis, plane, u, r.j + r.h, q.face);
      assert cells(u, r.j + r.h) != c;
    }
    assert r.h == R.h;
  }

  /** The faces of slice (axis, plane) form exactly the rectangle R, every
      cell of it holding c: then a greedy exact cover holds exactly one quad
      of that slice, R itself. A run of k equal faces is one quad of width k;
      a fully covered slice is one size x size quad. */
  lemma RectangleOneQuad<L>(cells: (int, int) -> L, qs: seq<Quad<L>>, size: nat, axis: Axis, plane: int, empty: L,
                            R: Rect, c: L)
    requires Fits(R, size) && c != empty
    requires forall u, v | 0 <= u < size && 0 <= v < size :: cells(u, v) == if InRect(R, u, v) then c else empty
    requires GreedySlice(cells, qs, size, axis, plane, empty)
    ensures exists k | 0 <= k < |qs| :: qs[k] == Quad(axis, plane, R, c)
              && forall k' | 0 <= k' < |qs| && qs[k'].axis == axis && qs[k'].plane == plane :: k' == k
  {
    assert InRect(R, R.i, R.j) && cells(R.i, R.j) == c;
    CoverCountPositive(qs, axis, plane, R.i, R.j);
    var k :| 0 <= k < |qs| && Covers(qs[k], axis, plane, R.i, R.j);
    GreedyInRectangle(cells, qs, size, axis, plane, empty, R, c, k);
    forall k' | 0 <= k' < |qs| && qs[k'].axis == axis && qs[k'].plane == plane
      ensures k' == k
    {
      GreedyInRectangle(cells, qs, size, axis, plane, empty, R, c, k');
      if k < k' {
        CoverCountOfPair(qs, k, k', R.i, R.j);
        assert false;
      } else if k' < k {
        CoverCountOfPair(qs, k', k, R.i, R.j);
        assert false;
      }
    }
  }

  // ---------------------------------------------------------------------------
  // The greedy choice across a sweep of slices

  /** Slice (a, p) is swept before slice (axis, plane). */
  predicate Before(a: int, p: int, axis: int, plane: int) {
    a < axis || (a == axis && p < plane)
  }

  /** Every quad of a sweep is the greedy choice in its own slice, whose
      cells are slices(axis, plane), after the quads emitted before it.
      Stated one quad at a time, from the last; GreedySweepAt gives it for
      every quad. */
  ghost predicate GreedySweep<L>(slices: (Axis, int) -> (int, int) -> L, qs: seq<Quad<L>>, size: int, empty: L)
    decreases |qs|
  {
    if qs == [] then true
    else
      var n := |qs| - 1;
      GreedySweep(slices, qs[..n], size, empty) && GreedyQuad(slices(qs[n].axis, qs[n].plane), qs[..n], qs[n], size, empty)
  }

  lemma {:induction false} GreedySweepAt<L>(slices: (Axis, int) -> (int, int) -> L, qs: seq<Quad<L>>, size: int,
                                            empty: L, k: int)
    requires GreedySweep(slices, qs, size, empty) && 0 <= k < |qs|
    ensures GreedyQuad(slices(qs[k].axis, qs[k].plane), qs[..k], qs[k], size, empty)
    decreases |qs|
  {
    var n := |qs| - 1;
    if k < n {
      GreedySweepAt(slices, qs[..n], size, empty, k);
      assert qs[..n][..k] == qs[..k] && qs[..n][k] == qs[k];
    }
  }

  /** GreedySweep, given for every quad, holds. */
  lemma {:induction false} GreedySweepFromAll<L>(slices: (Axis, int) -> (int, int) -> L, qs: seq<Quad<L>>, size: int,
                                                 empty: L)
    requires forall k | 0 <= k < |qs| :: GreedyQuad(slices(qs[k].axis, qs[k].plane), qs[..k], qs[k], size, empty)
    ensures GreedySweep(slices, qs, size, empty)
    decreases |qs|
  {
    if qs != [] {
      var n := |qs| - 1;
      var p := qs[..n];
      forall k | 0 <= k < |p|
        ensures GreedyQuad(slices(p[k].axis, p[k].plane), p[..k], p[k], size, empty)
      {
        assert p[..k] == qs[..k] && p[k] == qs[k];
      }
      GreedySweepFromAll(slices, p, size, empty);
    }
  }

  /** Appending the quads of slice (axis, plane), a greedy merge of that
      slice's mask m0, keeps the sweep greedy: the quads of earlier slices
      cover nothing in this one. */
  lemma GreedySweepStep<L>(slices: (Axis, int) -> (int, int) -> L, qs: seq<Quad<L>>, sq: seq<Quad<L>>, size: nat,
                           axis: Axis, plane: int, empty: L, m0: seq<L>)
    requires |m0| == size * size
    requires GreedySweep(slices, qs, size, empty)
    requires forall k | 0 <= k < |qs| :: Before(qs[k].axis, qs[k].plane, axis, plane)
    requires forall u, v | 0 <= u < size && 0 <= v < size :: At(m0, size, u, v) == slices(axis, plane)(u, v)
    requires forall k | 0 <= k < |sq| :: sq[k].axis == axis && sq[k].plane == plane && Fits(sq[k].rect, size)
    requires Greedy(MaskCells(m0, size, empty), sq, size, empty)
    ensures GreedySweep(slices, qs + sq, size, empty)
  {
    var all := qs + sq;
    forall k | 0 <= k < |all|
      ensures GreedyQuad(slices(all[k].axis, all[k].plane), all[..k], all[k], size, empty)
    {
      if k < |qs| {
        GreedySweepAt(slices, qs, size, empty, k);
        assert all[..k] == qs[..k] && all[k] == qs[k];
      } else {
        GreedySweepStepAt(slices, qs, sq, size, axis, plane, empty, m0, k);
      }
    }
    GreedySweepFromAll(slices, all, size, empty);
  }

  lemma GreedySweepStepAt<L>(slices: (Axis, int) -> (int, int) -> L, qs: seq<Quad<L>>, sq: seq<Quad<L>>, size: nat,
                             axis: Axis, plane: int, empty: L, m0: seq<L>, k: int)
    requires |m0| == size * size
    requires forall k | 0 <= k < |qs| :: Before(qs[k].axis, qs[k].plane, axis, plane)
    requires forall u, v | 0 <= u < size && 0 <= v < size :: At(m0, size, u, v) == slices(axis, plane)(u, v)
    requires forall k | 0 <= k < |sq| :: sq[k].axis == axis && sq[k].plane == plane && Fits(sq[k].rect, size)
    requires Greedy(MaskCells(m0, size, empty), sq, size, empty)
    requires |qs| <= k < |qs + sq|
    ensures var all := qs + sq;
      GreedyQuad(slices(all[k].axis, all[k].plane), all[..k], all[k], size, empty)
  {
    var k' := k - |qs|;
    assert (qs + sq)[..k] == qs + sq[..k'] && (qs + sq)[k] == sq[k'];
    GreedyAt(MaskCells(m0, size, empty), sq, size, empty, k');
    GreedyChoiceInSweep(slices, qs, sq[..k'], sq[k'], size, empty, m0);
  }

  /** A greedy choice of the merge of one slice is a greedy choice of the
      sweep: the quads of earlier slices cover nothing in the slice. */
  lemma GreedyChoiceInSweep<L>(slices: (Axis, int) -> (int, int) -> L, qs: seq<Quad<L>>, p: seq<Quad<L>>, q: Quad<L>,
                               size: nat, empty: L, m0: seq<L>)
    requires |m0| == size * size && Fits(q.rect, size)
    requires forall k | 0 <= k < |qs| :: Before(qs[k].axis, qs[k].plane, q.axis, q.plane)
    requires forall u, v | 0 <= u < size && 0 <= v < size :: At(m0, size, u, v) == slices(q.axis, q.plane)(u, v)
    requires GreedyQuad(MaskCells(m0, size, empty), p, q, size, empty)
    ensures GreedyQuad(slices(q.axis, q.plane), qs + p, q, size, empty)
  {
    forall u, v | 0 <= u < size && 0 <= v < size
      ensures CoverCount(p, q.axis, q.plane, u, v) == CoverCount(qs + p, q.axis, q.plane, u, v)
    {
      CoverCountAppend(qs, p, q.axis, q.plane, u, v);
      CoverCountElsewhere(qs, q.axis, q.plane, u, v);
    }
    GreedyQuadTransfer(MaskCells(m0, size, empty), slices(q.axis, q.plane), p, qs + p, q, size, empty);
  }

  /** In a greedy sweep whose quads cover the faces of slice (axis, plane)
      exactly once, each over cells of its own face, the quads of that slice
      are a greedy exact cover of it. */
  lemma SweptSliceGreedy<L>(slices: (Axis, int) -> (int, int) -> L, qs: seq<Quad<L>>, size: nat, axis: Axis, plane: int,
                            empty: L)
    requires GreedySweep(slices, qs, size, empty)
    requires forall u, v | 0 <= u < size && 0 <= v < size ::
               CoverCount(qs, axis, plane, u, v) == if slices(axis, plane)(u, v) != empty then 1 else 0
    requires forall k | 0 <= k < |qs| && qs[k].axis == axis && qs[k].plane == plane ::
               Fits(qs[k].rect, size) && qs[k].face != empty
    requires forall k, u, v | 0 <= k < |qs| && qs[k].axis == axis && qs[k].plane == plane && 0 <= u < size && 0 <= v < size
                             && InRect(qs[k].rect, u, v) :: slices(axis, plane)(u, v) == qs[k].face
    ensures GreedySlice(slices(axis, plane), qs, size, axis, plane, empty)
  {
    forall k | 0 <= k < |qs| && qs[k].axis == axis && qs[k].plane == plane
      ensures GreedyQuad(slices(axis, plane), qs[..k], qs[k], size, empty)
    {
      GreedySweepAt(slices, qs, size, empty, k);
    }
  }
  /** In a greedy sweep whose quads cover slice (axis, plane) exactly once,
      a slice whose faces are exactly the rectangle R, all holding c, gets
      exactly one quad, R itself. */
  lemma SweptRectangleOneQuad<L>(slices: (Axis, int) -> (int, int) -> L, qs: seq<Quad<L>>, size: nat, axis: Axis,
                                 plane: int, empty: L, R: Rect, c: L)
    requires GreedySweep(slices, qs, size, empty)
    requires forall u, v | 0 <= u < size && 0 <= v < size ::
               CoverCount(qs, axis, plane, u, v) == if slices(axis, plane)(u, v) != empty then 1 else 0
    requires forall k | 0 <= k < |qs| && qs[k].axis == axis && qs[k].plane == plane ::
               Fits(qs[k].rect, size) && qs[k].face != empty
    requires forall k, u, v | 0 <= k < |qs| && qs[k].axis == axis && qs[k].plane == plane && 0 <= u < size && 0 <= v < size
                             && InRect(qs[k].rect, u, v) :: slices(axis, plane)(u, v) == qs[k].face
    requires Fits(R, size) && c != empty
    requires forall u, v | 0 <= u < size && 0 <= v < size :: slices(axis, plane)(u, v) == if InRect(R, u, v) then c else empty
    ensures exists k | 0 <= k < |qs| :: qs[k] == Quad(axis, plane, R, c)
              && forall k' | 0 <= k' < |qs| && qs[k'].axis == axis && qs[k'].plane == plane :: k' == k
  {
    SweptSliceGreedy(slices, qs, size, axis, plane, empty);
    RectangleOneQuad(slices(axis, plane), qs, size, axis, plane, empty, R, c);
  }


  // ---------------------------------------------------------------------------
  // The merge scan

  /** The state of the merge scan at cell (i, j): the invariant holds and
      every cell before (i, j) in scan order has been cleared or was empty. */
  ghost predicate Scanned<L>(m0: seq<L>, m: seq<L>, sq: seq<Quad<L>>, size: nat, axis: Axis, plane: int, empty: L,
                             i: int, j: int)
  {
    && Consistent(m0, m, sq, size, axis, plane, empty)
    && ClearedBefore(m, size, i, j, empty)
  }

  /** Emitting the rectangle found at (i, j) and clearing it moves the scan
      past the rectangle's first row segment. */
  lemma ScannedEmit<L>(m0: seq<L>, m: seq<L>, m': seq<L>, sq: seq<Quad<L>>, size: nat, axis: Axis, plane: int,
                       empty: L, i: nat, j: nat, w: nat, h: nat, c: L)
    requires Scanned(m0, m, sq, size, axis, plane, empty, i, j)
    requires Fits(Rect(i, j, w, h), size) && c != empty
    requires forall u, v | 0 <= u < size && 0 <= v < size && InRect(Rect(i, j, w, h), u, v) :: At(m, size, u, v) == c
    requires |m'| == size * size
    requires forall u, v | 0 <= u < size && 0 <= v < size ::
               At(m', size, u, v) == if InRect(Rect(i, j, w, h), u, v) then empty else At(m, size, u, v)
    ensures Scanned(m0, m', sq + [Quad(axis, plane, Rect(i, j, w, h), c)], size, axis, plane, empty, i + w, j)
  {
    ConsistentStep(m0, m, m', sq, size, axis, plane, empty, Rect(i, j, w, h), c);
  }

  /** The rectangle the scan grows at (i, j) over the whole run of c along
      row j, and down to a row that does not match over that width, is the
      greedy choice: a cell the working mask no longer shows as c is not
      open for c. */
  lemma ScannedChoice<L>(m0: seq<L>, m: seq<L>, sq: seq<Quad<L>>, size: nat, axis: Axis, plane: int,
                         empty: L, i: nat, j: nat, w: nat, h: nat, c: L)
    requires Scanned(m0, m, sq, size, axis, plane, empty, i, j)
    requires Fits(Rect(i, j, w, h), size) && c != empty
    requires i + w == size || At(m, size, i + w, j) != c
    requires j + h == size || !RowMatches(m, size, i, w, j + h, c)
    ensures GreedyQuad(MaskCells(m0, size, empty), sq, Quad(axis, plane, Rect(i, j, w, h), c), size, empty)
  {
    var cells := MaskCells(m0, size, empty);
    forall u, v | 0 <= u < size && 0 <= v < size && At(m, size, u, v) != c
      ensures !Open(cells, sq, axis, plane, u, v, c)
    {
    }
    if j + h < size {
      var u :| i <= u < i + w && At(m, size, u, j + h) != c;
      assert !Open(cells, sq, axis, plane, u, j + h, c);
    }
  }
  /** The quad the merge scan emits at the face cell (i, j) it has reached:
      the cell's value c, read from the mask, over the maximal rectangle
      grown from (i, j). It is the greedy choice after the quads sq0 already
      emitted in the slice. */
  method ChooseQuad<L(==)>(mask: array<L>, size: nat, axis: Axis, plane: int, i: nat, j: nat, n: int, empty: L,
                           ghost m0: seq<L>, ghost m: seq<L>, ghost sq0: seq<Quad<L>>) returns (q: Quad<L>)
    requires mask.Length == size * size && i < size && j < size && n == RowStart(size, j) + i
    requires mask[..] == m && Scanned(m0, m, sq0, size, axis, plane, empty, i, j)
    requires At(m, size, i, j) != empty
    ensures q.axis == axis && q.plane == plane && q.face == At(m, size, i, j) == At(m0, size, i, j)
    ensures q.rect.i == i && q.rect.j == j && Fits(q.rect, size)
    ensures q.rect.w == RowRun(m, size, i, j, q.face)
    ensures forall u, v | 0 <= u < size && 0 <= v < size && InRect(q.rect, u, v) :: At(m, size, u, v) == q.face
    ensures GreedyQuad(MaskCells(m0, size, empty), sq0, q, size, empty)
  {
    CellIndexBound(size, i, j);
    assert mask[n] == At(m, size, i, j);
    var c := mask[n];
    var r := MaximalRect(mask, size, i, j, n);
    q := Quad(axis, plane, r, c);
    ScannedChoice(m0, m, sq0, size, axis, plane, empty, i, j, r.w, r.h, c);
  }


  /** An empty cell is passed over. */
  lemma ScannedSkip<L>(m0: seq<L>, m: seq<L>, sq: seq<Quad<L>>, size: nat, axis: Axis, plane: int, empty: L,
                       i: nat, j: nat)
    requires Scanned(m0, m, sq, size, axis, plane, empty, i, j)
    requires i < size && j < size && At(m, size, i, j) == empty
    ensures Scanned(m0, m, sq, size, axis, plane, empty, i + 1, j)
  {
  }

  /** The end of a row is the start of the next one. */
  lemma ScannedNextRow<L>(m0: seq<L>, m: seq<L>, sq: seq<Quad<L>>, size: nat, axis: Axis, plane: int, empty: L, j: nat)
    requires Scanned(m0, m, sq, size, axis, plane, empty, size, j)
    ensures Scanned(m0, m, sq, size, axis, plane, empty, 0, j + 1)
  {
  }

  /** At the end of the scan the mask is empty, so the quads cover every
      non-empty built cell exactly once and nothing else, each quad being a
      rectangle of this slice all of whose built cells carry its face. */
  lemma ScannedFinished<L>(m0: seq<L>, m: seq<L>, sq: seq<Quad<L>>, size: nat, axis: Axis, plane: int, empty: L)
    requires Scanned(m0, m, sq, size, axis, plane, empty, 0, size)
    ensures forall k | 0 <= k < |sq| ::
              sq[k].axis == axis && sq[k].plane == plane && Fits(sq[k].rect, size) && sq[k].face != empty
    ensures forall u, v | 0 <= u < size && 0 <= v < size ::
              CoverCount(sq, axis, plane, u, v) == if At(m0, size, u, v) != empty then 1 else 0
    ensures forall k, u, v | 0 <= k < |sq| && 0 <= u < size && 0 <= v < size && InRect(sq[k].rect, u, v) ::
              At(m0, size, u, v) == sq[k].face
  {
  }
}
