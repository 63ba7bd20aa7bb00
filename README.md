# D8 flow-direction upscaling (pyflwdir `d8_scaling`)

This project models, in Dafny, the core of the block-upscaling of a D8
flow-direction raster in pyflwdir. The high-resolution ("subgrid") raster is
cut into `s` by `s` tiles, and each tile becomes one low-resolution cell. For
every tile the upscaling does the following:

- it picks a representative cell (`_rep_cell`);
- it follows the flow from that cell to the tile's outlet, the last cell
  still inside the tile (`_outlet`);
- it marks the subgrid cells in an `effare` map: 0 for none, 1 for
  effective area, 2 for the stream to the outlet, 3 for the outlet;
- it follows the outlet further downstream to choose the tile's
  low-resolution D8 direction (`_dd`, with the pit repair
  `_fix_pit_outlets`).

The model also covers `_force_ds_outlet` and the guard at the start of
`_ddplus`.

The modules follow the structure of `pyflwdir/d8_scaling.py`:

- `Arith`: the nonlinear integer facts the index proofs need.
- `Tiles`: `subidx_2_idx` and `cellidx_2_subidx`, together with the local
  index that inverts the second.
- `D8`: the D8 convention of the flow-direction core (`ispit` and
  `idx_to_dd`). The core module itself is not part of this model; its
  helpers are defined here from the convention.
- `FlowGrid`: the subgrid.
  - Each cell has a D8 code `flwdir`, an upstream area `upa` and a
    downstream index `next`. `next` is -1 outside the domain, and the cell
    itself exactly where `flwdir` holds a pit code. Apart from pits,
    `next` is a separate input: the model does not require it to be the D8
    neighbour that `flwdir` points to.
  - Acyclicity is given as a ghost rank that strictly decreases along
    `next`.
- `Walks`: `_outlet`, `_dd` and `_force_ds_outlet`, as methods with loops
  over the `next` sequence.
- `Representative`: `_rep_cell`.
- `PitFix`: `_fix_pit_outlets`.
- `DdPlus`: the early-return logic of `_ddplus`.
- `Scaling`: the first two loops of `d8_scaling`. They are methods that
  fill arrays in place: `outlet_lr_flat`, `flwdir_lr_flat`, `changd_lr_flat`
  and `effare_flat`.

A Python exception in the source is modelled as `ok == false` in the
model's output. This covers the failing `assert idx0 != idx_pit` and the
division by a zero upstream area in `_fix_pit_outlets`.

## Model

| member | source | states |
|---|---|---|
| Tiles.SubidxToIdx | pyflwdir/d8_scaling.py:16-21 | the definition of `subidx_2_idx`: the tile holding a subgrid cell, found from the cell's row and column divided by `s`; its range is `Tiles.SubidxToIdxInRange` and it inverts `Tiles.CellidxToSubidx` (`Tiles.CellRoundTrip`) |
| Tiles.CellidxToSubidx | pyflwdir/d8_scaling.py:24-29 | the definition of `cellidx_2_subidx`: the `t`-th cell, in row-major order, of a tile; its properties are the `Tiles.Cell*` lemmas below |
| Tiles.SubidxToIdxInRange | pyflwdir/d8_scaling.py:16-21 | on a subgrid divisible by `s`, every cell index in range maps to a tile index in `[0, lr_nrow*lr_ncol)` |
| Tiles.SubidxToIdxNonneg | pyflwdir/d8_scaling.py:16-21 | a non-negative cell index has a non-negative tile index |
| Tiles.CellRoundTrip | pyflwdir/d8_scaling.py:16-29 | `subidx_2_idx(cellidx_2_subidx(t, tile)) == tile` for every local index `t < s*s` and every tile |
| Tiles.LocalOfCell | pyflwdir/d8_scaling.py:24-29 | the local position inside its tile of the `t`-th cell of that tile is `t` |
| Tiles.CellOfLocal | pyflwdir/d8_scaling.py:16-29 | the reverse round trip: when the width is divisible by `s`, each subgrid cell is the cell of its tile at its own local position |
| Tiles.CellInjective | pyflwdir/d8_scaling.py:24-29 | for a fixed tile, distinct local indices give distinct subgrid cells |
| Tiles.CellSurjective | pyflwdir/d8_scaling.py:24-29 | every subgrid cell of a tile is the cell of some local index `t < s*s` |
| Tiles.CellInRange | pyflwdir/d8_scaling.py:24-29 | a cell of a tile inside the low-resolution grid lies inside the subgrid, even when rows or columns are left over |
| D8.IsPit | pyflwdir/d8_scaling.py:12 | the definition of `fd.ispit`: the pit codes `_pits` are 0 and 255 |
| D8.IdxToDd | pyflwdir/d8_scaling.py:180 | the definition of `fd.idx_to_dd`: the code of the move from one low-resolution cell to another, or `_nodata` when they are not neighbours; checked against the test pattern by `D8.IdxToDdUpstreamPattern` |
| D8.IdxToDdUpstreamPattern | tests/test_pyflwdir_core.py:101-103 | on a 3 by 3 grid, the code from each cell to the centre is the `_us` pattern 2 4 8 / 1 0 16 / 128 64 32 |
| D8.NeighbourOfIdxToDd | tests/test_pyflwdir_core.py:101-103 | decoding the code of a move between two neighbouring cells leads back to the target cell |
| D8.IdxToDdIsPit | pyflwdir/d8_scaling.py:352-353 | the code of the move between two cells is a pit code exactly when the two cells are the same |
| Representative.RepCell | pyflwdir/d8_scaling.py:32-68 | the representative cell is the first cell with the largest positive upstream area among the tile's cells that are pits or in the effective area; with no such cell it is the centre cell; the cells returned are the effective-area cells, plus the representative cell if it is a pit outside them; they are distinct, and all lie in the tile |
| Representative.EffCellsFacts | pyflwdir/d8_scaling.py:48-57 | the effective-area cells visited are distinct, lie in the tile, and include every masked cell |
| Representative.RoundHalfSquare | pyflwdir/d8_scaling.py:64-67 | `round(s**2/2.)` with round-half-even is `s*s/2` and is a local index of the tile |
| Walks.Outlet | pyflwdir/d8_scaling.py:71-97 | the stream cells start at `subidx` and follow the flow; every later cell is in tile `idx0`; the last cell is the outlet, and its downstream cell is -1, itself, or a cell of another tile |
| Walks.OutletTraceUnique | pyflwdir/d8_scaling.py:77-96 | the stream to the outlet is fully determined by its start cell |
| Walks.OutletTraceMoves | pyflwdir/d8_scaling.py:80-93 | the stream has more than one cell exactly when the first step stays in the domain, moves, and stays inside the tile |
| Walks.InWindow | pyflwdir/d8_scaling.py:125 | the definition of the window test: the tile is within one index of `idx0` or of the tiles directly above or below it |
| Walks.Dd | pyflwdir/d8_scaling.py:100-144 | the walk passes cells of its own tile and unmarked or non-stopping cells in the window; it ends at a stopping marked cell of a neighbouring tile, at the domain edge (-1), at a pit (returning the pit's code), or before leaving the 3 by 3 window (returning the last cell inside); the direction is that of the last marked neighbouring tile met, or the pit code |
| Walks.DdOutsideDomain | pyflwdir/d8_scaling.py:109-115 | a walk that leaves the domain without meeting a marked neighbouring cell returns the pit code `_pits[0]` |
| Walks.DdAtPit | pyflwdir/d8_scaling.py:116-119 | a walk that ends at a subgrid pit returns the pit's own code |
| Walks.DdFirstHit | pyflwdir/d8_scaling.py:130-140 | with `extended=False` the walk stops at the first marked cell of a neighbouring tile, and the direction points to that cell's tile; a walk that meets no such cell ends with a pit code |
| Walks.LastHitDirNoHit | pyflwdir/d8_scaling.py:109 | with no marked neighbouring cell on the walk, the direction stays the pit code |
| Walks.LastHitDirAt | pyflwdir/d8_scaling.py:133-138 | the direction is that of the last marked neighbouring cell on the walk |
| Walks.ToEffectiveArea | pyflwdir/d8_scaling.py:157-169 | the first phase follows the flow from `subidx0` through unmarked cells; it ends on the first marked cell entered, or with mark 0 where the flow ends |
| Walks.ForceDsOutlet | pyflwdir/d8_scaling.py:147-196 | returns `(-1, -1, nodata, path)` when no marked cell is reached downstream; `path` starts at `subidx0` and follows the flow (first phase: every step moves); past the first phase, `path` is the first phase followed by the outlet streams `segs`, and the result is as `Walks.VisitOutcome` states for those streams |
| Walks.VisitOutlets | pyflwdir/d8_scaling.py:174-194 | the second phase appends the outlet streams `segs` to the path (`pathOut == path + Concat(segs)`); the first stream starts at `subidx`, each further one at the cell below the previous outlet, and each runs to the outlet of its tile `tiles[k]`; the walk went on after every stream but the last; it returns the last tile, its outlet and the direction to it when that tile is the `n`-th with a proper direction from `idx0`, and otherwise `(-1, -1, nodata)` after three tiles without a proper direction or at the end of the flow |
| Walks.VisitOutcomeDetermined | pyflwdir/d8_scaling.py:174-195 | any two walks that `Walks.VisitOutcome` describes from the same cell have the same streams, the same tiles and the same result, so the contract of `Walks.VisitOutlets` fixes what the second phase returns |
| Walks.VisitStep | pyflwdir/d8_scaling.py:178-181 | one round of the second phase: the outlet of the tile of `cur` and its stream, appended to the streams so far, which keep their chain; the direction from `idx0` to that tile, and whether that tile is the `n`-th with a proper direction |
| Walks.CountValidBound | pyflwdir/d8_scaling.py:177-190 | the number of visited tiles with a proper direction from `idx0` never exceeds the number of tiles visited |
| PitFix.RatioBelowTwo | pyflwdir/d8_scaling.py:431 | the definition of `upa_ds / upa < 2` on exact quotients, for either sign of `upa` |
| PitFix.FixPitOutlets | pyflwdir/d8_scaling.py:416-459 | fails when the pit lies in `idx0` or when an upstream area along the main river is zero; otherwise: if the outlet lies on the main river down to the pit, it returns the pit's code and the pit; else it climbs the main upstream cells from the last cell of the main river, and stops at the first cell whose main upstream cell is missing, lies outside the window, or is the outlet of another tile; in that last case the direction points to that outlet's tile, otherwise to the pit's tile |
| PitFix.FixPitKeepsPit | pyflwdir/d8_scaling.py:490-494 | when the repair returns a pit code, the new outlet is a subgrid pit (the assertion the source leaves commented out) |
| DdPlus.UsIndices | pyflwdir/d8_scaling.py:344 | the upstream cells of a low-resolution cell are exactly the other cells that drain into it, in increasing order |
| DdPlus.ArgMax | pyflwdir/d8_scaling.py:350 | `np.argmax`: the index of the first maximum |
| DdPlus.MainUpstreamLr | pyflwdir/d8_scaling.py:349-351 | the main upstream cell drains into `idx0`, its outlet has the largest upstream area, and it is the lowest-numbered among equals |
| DdPlus.DdPlusGuard | pyflwdir/d8_scaling.py:336-355 | the definition of the guard of `_ddplus`: an early return, the failing `assert not fd.ispit(dd_new)`, or the start of the trace with the main upstream cell and the new direction; its properties are the `DdPlus.DdPlus*` lemmas below |
| DdPlus.DdPlusEarlyReturn | pyflwdir/d8_scaling.py:343-355 | every early return is `(idx0, nodata, outlet_lr_flat[idx0])`; it happens when there are no upstream cells, when the cell is a pit or drains out of the grid (lines 346-347), and when no upstream cell is a D8 neighbour of the downstream cell (lines 354-355) |
| DdPlus.DdPlusTrace | pyflwdir/d8_scaling.py:348-357 | past the guard, the new direction is a proper neighbour code from the main upstream cell to the downstream cell, and tracing starts at that cell's outlet |
| DdPlus.DdPlusNoPit | pyflwdir/d8_scaling.py:353 | on an acyclic low-resolution grid, the assertion that the new direction is no pit code holds |
| Scaling.AssignAt | pyflwdir/d8_scaling.py:481-483 | `a[idxs] = v`: exactly the listed cells take `v`, and the rest keep their values |
| Scaling.MarkTile | pyflwdir/d8_scaling.py:477-483 | one tile of loop 1: stores the tile's outlet; every cell then carries 3 if it is the outlet, else 1 if it is in the effective area, else 2 if it is on the stream, else its old mark |
| Scaling.MarkOutlets | pyflwdir/d8_scaling.py:476-483 | after loop 1: each tile's outlet ends its stream from the representative cell and lies in the tile; the outlets are distinct; every cell's mark is decided by its own tile alone, so no tile overwrites another's marks |
| Scaling.MarkPrecedence | pyflwdir/d8_scaling.py:480-483 | the marks follow the precedence outlet (3) over effective area (1) over stream (2); unmarked cells are 0 |
| Scaling.OutletsDistinct | pyflwdir/d8_scaling.py:574 | outlets that lie in their own tiles are distinct (the uniqueness assert, as it stands after loop 1) |
| Scaling.DownToOutlet | pyflwdir/d8_scaling.py:497-503 | the connectivity walk follows the flow and stops at the first later cell marked 3, or where the flow ends |
| Scaling.TileDirection | pyflwdir/d8_scaling.py:487-508 | one tile of loop 2: the direction of `_dd`, repaired by `_fix_pit_outlets` when it is a pit code at a cell and the outlet is no pit; the outlet moves only when the repair returns a pit code; otherwise the tile is flagged when `_dd` ended off any stream and the walk to the next outlet ends in a tile other than the one the direction points to |
| Scaling.AfterDd | pyflwdir/d8_scaling.py:489-508 | the part of one tile of loop 2 after `_dd` has returned: the same `DirectionSpec` as `Scaling.TileDirection`, given the walk `_dd` took |
| Scaling.OutletMovesToPit | pyflwdir/d8_scaling.py:489-494 | loop 2 moves an outlet only onto the subgrid pit at the end of the walk, and the tile then takes that pit's code |
| Scaling.ChangedTilesFacts | pyflwdir/d8_scaling.py:505-508 | `idx_check` lists, in increasing order and without repeats, exactly the flagged tiles |
| Scaling.AssignTile | pyflwdir/d8_scaling.py:494-509 | writes one tile's direction, outlet and change flag, and leaves every other tile unchanged |
| Scaling.AssignDirections | pyflwdir/d8_scaling.py:486-509 | loop 2: every tile before the first failure gets the outcome of its loop-1 outlet; `idx_check` holds the flagged tiles, and `upa_check` the upstream areas of their loop-1 outlets |
| Scaling.Upscale | pyflwdir/d8_scaling.py:462-509 | `d8_scaling` up to loop 2: arrays of the low-resolution size, the marks and outlets of loop 1, and the directions, outlets and change flags of loop 2 |

## Left out

- `_ddext` (pyflwdir/d8_scaling.py:199-331) is a heuristic retry search of
  list bookkeeping and lookups. It is left out, together with the second
  pass of `d8_scaling` that calls it (lines 512-557, including
  `np.argsort`).
- Of `_ddplus`, only the guard is modelled. Left out are:
  - the main-stream trace and the tributary search (lines 356-413);
  - the third pass of `d8_scaling` that applies them (lines 559-571).
- The final asserts (lines 572-574) are left out.
  - The no-loops check depends on `flwdir_check`, which is not part of
    this model.
  - Outlet uniqueness is proved only as it stands after loop 1
    (`Scaling.OutletsDistinct`). Loop 2 may move an outlet onto a pit
    outside its tile, and the later passes move more outlets.
- Floats become other inputs:
  - The effective-area test `i**0.5 + j**0.5 <= R**0.5` on float offsets
    (lines 42-43, 53) is given as a mask `effMask` over a tile's local
    indices. All tiles share the one mask, as in the source.
  - Upstream areas are integers.
  - The ratio test `upa_ds / upa < 2` (line 431) is decided on exact
    quotients (`PitFix.RatioBelowTwo`), with no float rounding.
  - `int(a/b)` for the tile counts is the floor of the exact quotient.
- `fd.ds_index` is taken as the given sequence `next`. `FlowGrid.Valid`
  ties it to `flwdir` only at pits. It does not require `next[i]` to be
  the neighbour that the code `flwdir[i]` points to, so the proofs hold for
  any downstream graph with those pits.
- `fd.us_main_indices(...)[0]` (line 445) is the given sequence `mainUs`.
  Its cells are only required to drain into the cell. Which upstream cell
  is "main", and the `upa_min` threshold, are not modelled.
- `DdPlus`'s `fd.us_indices` and `fd.ds_index` on the low-resolution grid
  are computed from a given low-resolution `next` sequence.
- `Representative.RepCell` runs one loop over the local index instead of
  the nested loops over offsets. The visiting order is the same row-major
  order (`Tiles.CellInjective` and `Tiles.CellSurjective`).
- `Walks.ForceDsOutlet` is split into its two phases,
  `Walks.ToEffectiveArea` and `Walks.VisitOutlets`. The list `path` is a
  sequence. `Walks.VisitOutlets` collects the outlet streams in `ext` and
  returns `path + ext`, where the source extends `path` stream by stream;
  the resulting list is the same.
- `Walks.Dd`'s counter `i` (line 141) is never read, so it is left out.
- Numba's `@njit`, the dtypes of the arrays, and the reshape of the
  results (line 575) are left out. The arrays hold unbounded integers.
- `checkd_lr_flat` (line 470) is used only by `_ddext`, so it is left out.
- Scaling.Upscale: its `ok` is false when loop 2 raises. The model then
  stops at that tile, whereas in the source the exception ends
  `d8_scaling` as a whole.
- Scaling.DirectionSpec: on an `ok == false` outcome, the arrays do not
  state what the source would have left in them, because the source
  raises.
- PitFix.MainUpstream: requires only that the main upstream cell drains
  into the cell. It is weaker than the source's choice by largest upstream
  area above `upa_min`.
- The commented-out debugging and loop-check code (lines 524-556) and the
  test file are not modelled. `D8.IdxToDdUpstreamPattern` proves that the
  D8 convention agrees with tests/test_pyflwdir_core.py:101-103.
