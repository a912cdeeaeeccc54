/** The order of a sweep, shared by both meshers: the quads come slice by
    slice, axis by axis and, along one axis, plane by plane. With the greedy
    choice in every slice, this order makes the quads of a buffer unique:
    two greedy exact covers in sweep order are the same sequence. */
module SweepOrder {
  import opened Geometry
  import opened SliceMerge

  /** No quad lies in a slice swept before the slice of an earlier quad. */
  predicate SweepOrdered<L>(qs: seq<Quad<L>>) {
    forall k, k' | 0 <= k < k' < |qs| :: !Before(qs[k'].axis, qs[k'].plane, qs[k].axis, qs[k].plane)
  }

  /** Appending the quads of slice (axis, plane) after quads of earlier
      slices keeps the sweep order. */
  lemma SweepOrderedAppend<L>(qs: seq<Quad<L>>, sq: seq<Quad<L>>, axis: int, plane: int)
    requires SweepOrdered(qs)
    requires forall k | 0 <= k < |qs| :: Before(qs[k].axis, qs[k].plane, axis, plane)
    requires forall k | 0 <= k < |sq| :: sq[k].axis == axis && sq[k].plane == plane
    ensures SweepOrdered(qs + sq)
  {
    var all := qs + sq;
    forall k, k' | 0 <= k < k' < |all|
      ensures !Before(all[k'].axis, all[k'].plane, all[k].axis, all[k].plane)
    {
      if k' < |qs| {
        assert all[k] == qs[k] && all[k'] == qs[k'];
      } else if k < |qs| {
        assert all[k] == qs[k] && all[k'] == sq[k' - |qs|];
      } else {
        assert all[k] == sq[k - |qs|] && all[k'] == sq[k' - |qs|];
      }
    }
  }

  /** qs' is qs followed by quads along `axis` only. */
  ghost predicate ExtendsOnAxis<L>(qs: seq<Quad<L>>, qs': seq<Quad<L>>, axis: int) {
    |qs| <= |qs'| && qs'[..|qs|] == qs && forall k | |qs| <= k < |qs'| :: qs'[k].axis == axis
  }

  /** Extending along one axis twice is extending along it once. */
  lemma ExtendsOnAxisTrans<L>(qs: seq<Quad<L>>, mid: seq<Quad<L>>, qs': seq<Quad<L>>, axis: int)
    requires ExtendsOnAxis(qs, mid, axis) && ExtendsOnAxis(mid, qs', axis)
    ensures ExtendsOnAxis(qs, qs', axis)
  {
    assert qs'[..|qs|] == mid[..|qs|];
  }

  /** qs covers every non-empty cell of every slice of a size x size chunk,
      planes -1 to size-1, exactly once, each quad only over cells that
      carry its face; slices(axis, plane) gives the cells of a slice. */
  ghost predicate SlicesCovered<L>(slices: (Axis, int) -> (int, int) -> L, qs: seq<Quad<L>>, size: int, empty: L) {
    && (forall k | 0 <= k < |qs| :: -1 <= qs[k].plane < size && Fits(qs[k].rect, size) && qs[k].face != empty)
    && (forall a: Axis, p, u, v | -1 <= p < size && 0 <= u < size && 0 <= v < size ::
          CoverCount(qs, a, p, u, v) == if slices(a, p)(u, v) != empty then 1 else 0)
    && (forall k, u, v | 0 <= k < |qs| && 0 <= u < size && 0 <= v < size && InRect(qs[k].rect, u, v) ::
          slices(qs[k].axis, qs[k].plane)(u, v) == qs[k].face)
  }

  /** qs is a greedy cover of the slices in sweep order. */
  ghost predicate OrderedGreedyCover<L>(slices: (Axis, int) -> (int, int) -> L, qs: seq<Quad<L>>, size: int, empty: L) {
    SlicesCovered(slices, qs, size, empty) && GreedySweep(slices, qs, size, empty) && SweepOrdered(qs)
  }

  /** Every cell of quad k of a cover is open for its face after the quads
      before it: it carries the face and no earlier quad covers it. */
  lemma FreshQuad<L>(slices: (Axis, int) -> (int, int) -> L, qs: seq<Quad<L>>, size: int, empty: L, k: int)
    requires SlicesCovered(slices, qs, size, empty) && 0 <= k < |qs|
    ensures forall u, v | InRect(qs[k].rect, u, v) ::
              Open(slices(qs[k].axis, qs[k].plane), qs[..k], qs[k].axis, qs[k].plane, u, v, qs[k].face)
  {
    var q := qs[k];
    forall u, v | InRect(q.rect, u, v)
      ensures Open(slices(q.axis, q.plane), qs[..k], q.axis, q.plane, u, v, q.face)
    {
      assert qs == qs[..k] + qs[k..];
      CoverCountAppend(qs[..k], qs[k..], q.axis, q.plane, u, v);
      CoverCountOfMember(qs[k..], 0, u, v);
    }
  }

  /** The greedy choice is unique: two quads of one slice, each the greedy
      choice after the same earlier quads and each over cells still open for
      its face, are the same quad. */
  lemma GreedyQuadUnique<L>(cells: (int, int) -> L, earlier: seq<Quad<L>>, q1: Quad<L>, q2: Quad<L>, size: int, empty: L)
    requires q1.axis == q2.axis && q1.plane == q2.plane
    requires Fits(q1.rect, size) && q1.face != empty && GreedyQuad(cells, earlier, q1, size, empty)
    requires Fits(q2.rect, size) && q2.face != empty && GreedyQuad(cells, earlier, q2, size, empty)
    requires forall u, v | InRect(q1.rect, u, v) :: Open(cells, earlier, q1.axis, q1.plane, u, v, q1.face)
    requires forall u, v | InRect(q2.rect, u, v) :: Open(cells, earlier, q2.axis, q2.plane, u, v, q2.face)
    ensures q1 == q2
  {
    GreedyStartUnique(cells, earlier, q1, q2, size, empty);
    GreedyStartUnique(cells, earlier, q2, q1, size, empty);
    var r1, r2 := q1.rect, q2.rect;
    assert InRect(r1, r1.i, r1.j) && InRect(r2, r2.i, r2.j);
    assert q1.face == cells(r1.i, r1.j) == q2.face;
    GreedyWidthUnique(cells, earlier, q1, q2, size, empty);
    GreedyWidthUnique(cells, earlier, q2, q1, size, empty);
    GreedyHeightUnique(cells, earlier, q1, q2, size, empty);
    GreedyHeightUnique(cells, earlier, q2, q1, size, empty);
  }

  /** A greedy quad starts no later in scan order than any open face. */
  lemma GreedyStartUnique<L>(cells: (int, int) -> L, earlier: seq<Quad<L>>, q1: Quad<L>, q2: Quad<L>, size: int, empty: L)
    requires q1.axis == q2.axis && q1.plane == q2.plane
    requires Fits(q1.rect, size) && q1.face != empty
    requires Fits(q2.rect, size) && GreedyQuad(cells, earlier, q2, size, empty)
    requires forall u, v | InRect(q1.rect, u, v) :: Open(cells, earlier, q1.axis, q1.plane, u, v, q1.face)
    ensures !(q1.rect.j < q2.rect.j || (q1.rect.j == q2.rect.j && q1.rect.i < q2.rect.i))
  {
    assert InRect(q1.rect, q1.rect.i, q1.rect.j);
  }

  /** Of two greedy quads from one cell with one face, neither is narrower. */
  lemma GreedyWidthUnique<L>(cells: (int, int) -> L, earlier: seq<Quad<L>>, q1: Quad<L>, q2: Quad<L>, size: int, empty: L)
    requires q1.axis == q2.axis && q1.plane == q2.plane && q1.face == q2.face
    requires q1.rect.i == q2.rect.i && q1.rect.j == q2.rect.j
    requires Fits(q1.rect, size) && GreedyQuad(cells, earlier, q1, size, empty)
    requires Fits(q2.rect, size)
    requires forall u, v | InRect(q2.rect, u, v) :: Open(cells, earlier, q2.axis, q2.plane, u, v, q2.face)
    ensures q2.rect.w <= q1.rect.w
  {
    var r1, r2 := q1.rect, q2.rect;
    if r1.w < r2.w {
      assert InRect(r2, r1.i + r1.w, r1.j);
    }
  }

  /** Of two greedy quads of one row run, neither is shorter. */
  lemma GreedyHeightUnique<L>(cells: (int, int) -> L, earlier: seq<Quad<L>>, q1: Quad<L>, q2: Quad<L>, size: int, empty: L)
    requires q1.axis == q2.axis && q1.plane == q2.plane && q1.face == q2.face
    requires q1.rect.i == q2.rect.i && q1.rect.j == q2.rect.j && q1.rect.w == q2.rect.w
    requires Fits(q1.rect, size) && GreedyQuad(cells, earlier, q1, size, empty)
    requires Fits(q2.rect, size)
    requires forall u, v | InRect(q2.rect, u, v) :: Open(cells, earlier, q2.axis, q2.plane, u, v, q2.face)
    ensures q2.rect.h <= q1.rect.h
  {
    var r1, r2 := q1.rect, q2.rect;
    if r1.h < r2.h {
      // row r1.j + r1.h lies inside r2, so it is open over q1's width
      assert false;
    }
  }

  /** The sweep order and the cover fix the slice of the next quad: quad k of
      one cover is in no slice swept before that of quad k of another cover
      with the same first k quads. */
  lemma NextSliceNotBefore<L>(slices: (Axis, int) -> (int, int) -> L, qs1: seq<Quad<L>>, qs2: seq<Quad<L>>,
                              size: int, empty: L, k: int)
    requires SlicesCovered(slices, qs1, size, empty) && SlicesCovered(slices, qs2, size, empty) && SweepOrdered(qs2)
    requires 0 <= k < |qs1| && k < |qs2| && qs1[..k] == qs2[..k]
    ensures !Before(qs1[k].axis, qs1[k].plane, qs2[k].axis, qs2[k].plane)
  {
    var q := qs1[k];
    var i, j := q.rect.i, q.rect.j;
    if Before(q.axis, q.plane, qs2[k].axis, qs2[k].plane) {
      assert InRect(q.rect, i, j) && slices(q.axis, q.plane)(i, j) == q.face;
      CoverCountPositive(qs2, q.axis, q.plane, i, j);
      var m :| 0 <= m < |qs2| && Covers(qs2[m], q.axis, q.plane, i, j);
      if m < k {
        assert qs2[m] == qs2[..k][m] == qs1[m];
        CoverCountOfPair(qs1, m, k, i, j);
        assert false;
      }
    }
  }

  /** Covers with the same first k quads agree on quad k too. */
  lemma NextQuadEqual<L>(slices: (Axis, int) -> (int, int) -> L, qs1: seq<Quad<L>>, qs2: seq<Quad<L>>,
                         size: int, empty: L, k: int)
    requires OrderedGreedyCover(slices, qs1, size, empty) && OrderedGreedyCover(slices, qs2, size, empty)
    requires 0 <= k < |qs1| && k < |qs2| && qs1[..k] == qs2[..k]
    ensures qs1[k] == qs2[k]
  {
    NextSliceNotBefore(slices, qs1, qs2, size, empty, k);
    NextSliceNotBefore(slices, qs2, qs1, size, empty, k);
    var q1, q2 := qs1[k], qs2[k];
    assert q1.axis == q2.axis && q1.plane == q2.plane;
    GreedySweepAt(slices, qs1, size, empty, k);
    GreedySweepAt(slices, qs2, size, empty, k);
    FreshQuad(slices, qs1, size, empty, k);
    FreshQuad(slices, qs2, size, empty, k);
    GreedyQuadUnique(slices(q1.axis, q1.plane), qs1[..k], q1, q2, size, empty);
  }

  /** Two greedy covers in sweep order agree on their first n quads. */
  lemma {:induction false} SweepPrefixEqual<L>(slices: (Axis, int) -> (int, int) -> L, qs1: seq<Quad<L>>,
                                               qs2: seq<Quad<L>>, size: int, empty: L, n: nat)
    requires OrderedGreedyCover(slices, qs1, size, empty) && OrderedGreedyCover(slices, qs2, size, empty)
    requires n <= |qs1| && n <= |qs2|
    ensures qs1[..n] == qs2[..n]
  {
    if n > 0 {
      SweepPrefixEqual(slices, qs1, qs2, size, empty, n - 1);
      NextQuadEqual(slices, qs1, qs2, size, empty, n - 1);
      assert qs1[..n] == qs1[..n - 1] + [qs1[n - 1]];
      assert qs2[..n] == qs2[..n - 1] + [qs2[n - 1]];
    }
  }

  /** A cover has no quad beyond another cover it starts with. */
  lemma CoverNotLonger<L>(slices: (Axis, int) -> (int, int) -> L, qs1: seq<Quad<L>>, qs2: seq<Quad<L>>,
                          size: int, empty: L)
    requires SlicesCovered(slices, qs1, size, empty) && SlicesCovered(slices, qs2, size, empty)
    requires |qs1| <= |qs2| && qs2[..|qs1|] == qs1
    ensures |qs2| == |qs1|
  {
    var n := |qs1|;
    if n < |qs2| {
      var q := qs2[n];
      var i, j := q.rect.i, q.rect.j;
      assert InRect(q.rect, i, j) && slices(q.axis, q.plane)(i, j) == q.face;
      assert qs2 == qs1 + qs2[n..];
      CoverCountAppend(qs1, qs2[n..], q.axis, q.plane, i, j);
      CoverCountOfMember(qs2[n..], 0, i, j);
    }
  }

  /** Determinism of the sweep: a buffer has one greedy exact cover in sweep
      order. */
  lemma SweepUnique<L>(slices: (Axis, int) -> (int, int) -> L, qs1: seq<Quad<L>>, qs2: seq<Quad<L>>,
                       size: int, empty: L)
    requires OrderedGreedyCover(slices, qs1, size, empty) && OrderedGreedyCover(slices, qs2, size, empty)
    ensures qs1 == qs2
  {
    if |qs1| <= |qs2| {
      SweepPrefixEqual(slices, qs1, qs2, size, empty, |qs1|);
      assert qs1[..|qs1|] == qs1;
      CoverNotLonger(slices, qs1, qs2, size, empty);
      assert qs2[..|qs2|] == qs2;
    } else {
      SweepPrefixEqual(slices, qs1, qs2, size, empty, |qs2|);
      assert qs2[..|qs2|] == qs2;
      CoverNotLonger(slices, qs2, qs1, size, empty);
    }
  }
}
