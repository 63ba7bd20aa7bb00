/** The D8 flow-direction convention of the flow-direction core that
    d8_scaling imports: one code per neighbour, two pit codes and a nodata
    code. The core module itself is not part of this model; its helpers
    `ispit` and `idx_to_dd` are defined here from that convention. */
module D8 {
  import Arith

  /** Code of a cell without a valid direction (`_nodata`). */
  const Nodata: int := 247
  /** First pit code (`_pits[0]`). */
  const PitCode: int := 0

  /** `ispit`: the codes 0 and 255 mark a pit. */
  predicate IsPit(dd: int) {
    dd == 0 || dd == 255
  }

  /** Code of the move by `dr` rows and `dc` columns (the `_ds` table:
      32 64 128 / 16 0 1 / 8 4 2). */
  function DsCode(dr: int, dc: int): int
    requires -1 <= dr <= 1 && -1 <= dc <= 1
  {
    [[32, 64, 128], [16, 0, 1], [8, 4, 2]][dr + 1][dc + 1]
  }

  /** Row and column offset encoded by a code; `(0, 0)` for anything that
      is not one of the eight neighbour codes. */
  function Offset(dd: int): (int, int) {
    if dd == 1 then (0, 1)
    else if dd == 2 then (1, 1)
    else if dd == 4 then (1, 0)
    else if dd == 8 then (1, -1)
    else if dd == 16 then (0, -1)
    else if dd == 32 then (-1, -1)
    else if dd == 64 then (-1, 0)
    else if dd == 128 then (-1, 1)
    else (0, 0)
  }

  /** `idx_to_dd`: the code of the move from cell `idx0` to cell `idxDs` on a
      grid `ncol` cells wide, or `Nodata` when `idxDs` is not one of the
      3 by 3 cells around `idx0`. */
  function IdxToDd(idx0: int, idxDs: int, ncol: int): int
    requires ncol > 0
  {
    var dr := idxDs / ncol - idx0 / ncol;
    var dc := idxDs % ncol - idx0 % ncol;
    if -1 <= dr <= 1 && -1 <= dc <= 1 then DsCode(dr, dc) else Nodata
  }

  /** Flat index of the neighbour that code `dd` points at from `idx0`. */
  function Neighbour(idx0: int, dd: int, ncol: int): int {
    idx0 + Offset(dd).0 * ncol + Offset(dd).1
  }

  /** The code of the move from each cell of a 3 by 3 grid to its centre is
      the `_us` pattern 2 4 8 / 1 0 16 / 128 64 32 (the centre itself is the
      pit code). */
  lemma IdxToDdUpstreamPattern(idx0: int)
    requires 0 <= idx0 < 9
    ensures IdxToDd(idx0, 4, 3) == [2, 4, 8, 1, 0, 16, 128, 64, 32][idx0]
  {
  }

  /** A neighbour code decodes back to the neighbour it was computed for. */
  lemma {:induction false} NeighbourOfIdxToDd(idx0: int, idxDs: int, ncol: int)
    requires ncol > 0 && IdxToDd(idx0, idxDs, ncol) != Nodata
    ensures Neighbour(idx0, IdxToDd(idx0, idxDs, ncol), ncol) == idxDs
  {
    var dr := idxDs / ncol - idx0 / ncol;
    var dc := idxDs % ncol - idx0 % ncol;
    assert Offset(DsCode(dr, dc)) == (dr, dc);
    assert idxDs == (idxDs / ncol) * ncol + idxDs % ncol;
    assert idx0 == (idx0 / ncol) * ncol + idx0 % ncol;
    assert dr * ncol == (idxDs / ncol) * ncol - (idx0 / ncol) * ncol;
  }

  /** `idx_to_dd` yields a pit code exactly when the two cells coincide, and
      is never a pit code otherwise. */
  lemma {:induction false} IdxToDdIsPit(idx0: int, idxDs: int, ncol: int)
    requires ncol > 0
    ensures IsPit(IdxToDd(idx0, idxDs, ncol)) <==> idx0 == idxDs
  {
    var dr := idxDs / ncol - idx0 / ncol;
    var dc := idxDs % ncol - idx0 % ncol;
    assert idxDs == (idxDs / ncol) * ncol + idxDs % ncol;
    assert idx0 == (idx0 / ncol) * ncol + idx0 % ncol;
    if -1 <= dr <= 1 && -1 <= dc <= 1 {
      assert DsCode(dr, dc) == 0 <==> dr == 0 && dc == 0;
    }
  }
}
