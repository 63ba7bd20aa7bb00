/** Index arithmetic between a high-resolution (subgrid) raster of
    `subNrow` by `subNcol` cells and the low-resolution raster obtained by
    grouping `s` by `s` subgrid cells into one tile. All indices are flat,
    row-major. */
module Tiles {
  import Arith

  /** Low-resolution cell (tile) that holds subgrid cell `subidx`
      (`subidx_2_idx`). */
  function SubidxToIdx(subidx: int, subNcol: int, s: int): int
    requires subNcol > 0 && s > 0
  {
    var ncol := subNcol / s;
    var r := (subidx / subNcol) / s;
    var c := (subidx % subNcol) / s;
    r * ncol + c
  }

  /** Global subgrid index of local cell `t` (row-major inside the tile) of
      tile `tile` (`cellidx_2_subidx`). */
  function CellidxToSubidx(t: int, tile: int, subNcol: int, s: int): int
    requires s > 0 && subNcol >= s
  {
    LrNcolPositive(subNcol, s);
    var ncol := subNcol / s;
    var r := tile / ncol * s + t / s;
    var c := tile % ncol * s + t % s;
    r * subNcol + c
  }

  /** Position of subgrid cell `subidx` inside its own tile: the inverse of
      `CellidxToSubidx` for a fixed tile. */
  function LocalIdx(subidx: int, subNcol: int, s: int): int
    requires subNcol > 0 && s > 0
  {
    (subidx / subNcol) % s * s + (subidx % subNcol) % s
  }

  /** The dimensions the low-resolution grid has and the subgrid fits exactly. */
  predicate Divisible(subNrow: int, subNcol: int, s: int) {
    s > 0 && subNrow > 0 && subNcol > 0 && subNrow % s == 0 && subNcol % s == 0
  }

  function LrNrow(subNrow: int, s: int): int requires s > 0 { subNrow / s }
  function LrNcol(subNcol: int, s: int): int requires s > 0 { subNcol / s }

  /** Every subgrid cell falls in one of the `lrNrow * lrNcol` tiles. */
  lemma SubidxToIdxInRange(subidx: int, subNrow: int, subNcol: int, s: int)
    requires Divisible(subNrow, subNcol, s)
    requires 0 <= subidx < subNrow * subNcol
    ensures 0 <= SubidxToIdx(subidx, subNcol, s) < LrNrow(subNrow, s) * LrNcol(subNcol, s)
  {
    var nr, nc := subNrow / s, subNcol / s;
    var row, col := subidx / subNcol, subidx % subNcol;
    Arith.DivBelow(subidx, subNrow, subNcol);
    Arith.DivExact(subNrow, s);
    Arith.DivExact(subNcol, s);
    Arith.DivBelow(row, nr, s);
    Arith.DivBelow(col, nc, s);
    Arith.RowMajorBound(row / s, col / s, nr, nc);
  }

  /** The tile of a cell with a non-negative index is non-negative. */
  lemma SubidxToIdxNonneg(subidx: int, subNcol: int, s: int)
    requires subNcol > 0 && s > 0 && subidx >= 0
    ensures SubidxToIdx(subidx, subNcol, s) >= 0
  {
    var row, col := subidx / subNcol, subidx % subNcol;
    Arith.DivNonneg(subidx, subNcol);
    Arith.DivNonneg(row, s);
    Arith.DivNonneg(col, s);
    Arith.DivNonneg(subNcol, s);
    Arith.RowMajorNonneg(row / s, col / s, subNcol / s);
  }

  /** The number of tiles in a row is positive as soon as the subgrid is at
      least one tile wide. */
  lemma LrNcolPositive(subNcol: int, s: int)
    requires s > 0 && subNcol >= s
    ensures subNcol / s >= 1
  {
  }

  /** Row and column of `CellidxToSubidx(t, tile, ..)` in the subgrid. */
  lemma CellRowCol(t: int, tile: int, subNcol: int, s: int)
    requires s > 0 && subNcol >= s && 0 <= t < s * s && 0 <= tile
    ensures var ncol := subNcol / s;
            var c := CellidxToSubidx(t, tile, subNcol, s);
            c >= 0
            && c / subNcol == tile / ncol * s + t / s
            && c % subNcol == tile % ncol * s + t % s
  {
    var ncol := subNcol / s;
    LrNcolPositive(subNcol, s);
    var q, m, a, b := tile / ncol, tile % ncol, t / s, t % s;
    var r := q * s + a;
    var c := m * s + b;
    Arith.RowMajorBound(m, b, ncol, s);
    Arith.DivModOf(ncol, subNcol % s, s);
    assert 0 <= c < subNcol;
    Arith.RowMajorNonneg(q, a, s);
    Arith.RowMajorNonneg(r, c, subNcol);
    Arith.DivModOf(r, c, subNcol);
  }

  /** Round trip: the tile of the `t`-th cell of tile `tile` is `tile`. */
  lemma {:induction false} CellRoundTrip(t: int, tile: int, subNcol: int, s: int)
    requires s > 0 && subNcol >= s && 0 <= t < s * s && 0 <= tile
    ensures SubidxToIdx(CellidxToSubidx(t, tile, subNcol, s), subNcol, s) == tile
  {
    var ncol := subNcol / s;
    LrNcolPositive(subNcol, s);
    CellRowCol(t, tile, subNcol, s);
    Arith.DivBelow(t, s, s);
    Arith.DivModOf(tile / ncol, t / s, s);
    Arith.DivModOf(tile % ncol, t % s, s);
  }

  /** The local position of the `t`-th cell of a tile is `t`. */
  lemma {:induction false} LocalOfCell(t: int, tile: int, subNcol: int, s: int)
    requires s > 0 && subNcol >= s && 0 <= t < s * s && 0 <= tile
    ensures LocalIdx(CellidxToSubidx(t, tile, subNcol, s), subNcol, s) == t
  {
    var ncol := subNcol / s;
    LrNcolPositive(subNcol, s);
    CellRowCol(t, tile, subNcol, s);
    Arith.DivBelow(t, s, s);
    Arith.DivModOf(tile / ncol, t / s, s);
    Arith.DivModOf(tile % ncol, t % s, s);
    Arith.DivModOf(t / s, t % s, s);
  }

  /** Round trip the other way: every subgrid cell is the `LocalIdx`-th cell of
      its own tile, when the tiles cover the grid's width exactly. */
  lemma {:induction false} CellOfLocal(subidx: int, subNcol: int, s: int)
    requires s > 0 && subNcol >= s && subNcol % s == 0 && subidx >= 0
    ensures 0 <= LocalIdx(subidx, subNcol, s) < s * s
    ensures CellidxToSubidx(LocalIdx(subidx, subNcol, s), SubidxToIdx(subidx, subNcol, s), subNcol, s) == subidx
  {
    var ncol := subNcol / s;
    LrNcolPositive(subNcol, s);
    assert subNcol == ncol * s;
    var row, col := subidx / subNcol, subidx % subNcol;
    var rq, rm, cq, cm := row / s, row % s, col / s, col % s;
    var t := rm * s + cm;
    var tile := rq * ncol + cq;
    assert LocalIdx(subidx, subNcol, s) == t;
    assert SubidxToIdx(subidx, subNcol, s) == tile;
    Arith.RowMajorBound(rm, cm, s, s);
    Arith.DivBelow(col, ncol, s);
    Arith.DivModOf(rq, cq, ncol);
    Arith.DivModOf(rm, cm, s);
    TileParts(t, tile, subNcol, s, rq, rm, cq, cm);
  }

  /** `CellidxToSubidx` reassembles the row and column from their tile and
      in-tile parts. */
  lemma TileParts(t: int, tile: int, subNcol: int, s: int, rq: int, rm: int, cq: int, cm: int)
    requires s > 0 && subNcol >= s
    requires tile / (subNcol / s) == rq && tile % (subNcol / s) == cq
    requires t / s == rm && t % s == cm
    ensures CellidxToSubidx(t, tile, subNcol, s) == (rq * s + rm) * subNcol + (cq * s + cm)
  {
  }

  /** Distinct local positions give distinct subgrid cells, so a loop over
      `t` in `[0, s * s)` visits each cell of the tile once. */
  lemma CellInjective(t1: int, t2: int, tile: int, subNcol: int, s: int)
    requires s > 0 && subNcol >= s && 0 <= tile
    requires 0 <= t1 < s * s && 0 <= t2 < s * s && t1 != t2
    ensures CellidxToSubidx(t1, tile, subNcol, s) != CellidxToSubidx(t2, tile, subNcol, s)
  {
    LocalOfCell(t1, tile, subNcol, s);
    LocalOfCell(t2, tile, subNcol, s);
  }

  /** ... and every subgrid cell of the tile is one of those `s * s` cells. */
  lemma CellSurjective(subidx: int, tile: int, subNcol: int, s: int)
    requires s > 0 && subNcol >= s && subNcol % s == 0 && subidx >= 0
    requires SubidxToIdx(subidx, subNcol, s) == tile
    ensures exists t :: 0 <= t < s * s && CellidxToSubidx(t, tile, subNcol, s) == subidx
  {
    CellOfLocal(subidx, subNcol, s);
  }

  /** A cell of a tile inside the low-resolution grid is inside the subgrid
      (the subgrid may have rows and columns left over beyond the last whole
      tile). */
  lemma {:induction false} CellInRange(t: int, tile: int, subNrow: int, subNcol: int, s: int)
    requires s > 0 && subNcol >= s && subNrow >= 0
    requires 0 <= t < s * s && 0 <= tile < LrNrow(subNrow, s) * LrNcol(subNcol, s)
    ensures 0 <= CellidxToSubidx(t, tile, subNcol, s) < subNrow * subNcol
  {
    var nr, nc := subNrow / s, subNcol / s;
    Arith.DivMulBelow(subNrow, s);
    Arith.DivMulBelow(subNcol, s);
    LrNcolPositive(subNcol, s);
    CellRowCol(t, tile, subNcol, s);
    var q, m, a, b := tile / nc, tile % nc, t / s, t % s;
    Arith.DivBelow(tile, nr, nc);
    Arith.DivBelow(t, s, s);
    Arith.RowBelow(q, a, nr, s);
    Arith.RowBelow(m, b, nc, s);
    Arith.RowMajorBound(q * s + a, m * s + b, subNrow, subNcol);
  }
}
