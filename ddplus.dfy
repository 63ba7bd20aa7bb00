/** The guard at the start of `_ddplus`, the third pass of d8_scaling: it
    decides whether a low-resolution cell is a candidate for moving its
    outlet, and returns the cell's current values when it is not. The
    low-resolution flow directions are given by their downstream indices
    `nextLr` (`ds_index` on the low-resolution grid). */
module DdPlus {
  import opened FlowGrid
  import D8

  /** The cells `u >= lo` that drain into `idx` (excluding `idx` itself), in
      ascending order. */
  function UsFrom(nextLr: seq<int>, idx: int, lo: nat): (r: seq<int>)
    ensures forall u :: u in r <==> lo <= u < |nextLr| && nextLr[u] == idx && u != idx
    ensures forall i, j :: 0 <= i < j < |r| ==> r[i] < r[j]
    decreases |nextLr| - lo
  {
    if lo >= |nextLr| then []
    else
      var rest := UsFrom(nextLr, idx, lo + 1);
      assert forall j :: 0 <= j < |rest| ==> rest[j] in rest;
      if nextLr[lo] == idx && lo != idx then [lo] + rest else rest
  }

  /** `us_indices` on the low-resolution grid. */
  function UsIndices(nextLr: seq<int>, idx: int): (r: seq<int>)
    ensures forall u :: u in r <==> 0 <= u < |nextLr| && nextLr[u] == idx && u != idx
    ensures forall i, j :: 0 <= i < j < |r| ==> r[i] < r[j]
  {
    UsFrom(nextLr, idx, 0)
  }

  /** The upstream cells are cells of the grid. */
  lemma UsIndicesInRange(nextLr: seq<int>, idx: int)
    ensures forall k :: 0 <= k < |UsIndices(nextLr, idx)| ==> 0 <= UsIndices(nextLr, idx)[k] < |nextLr|
  {
    var r := UsIndices(nextLr, idx);
    assert forall k :: 0 <= k < |r| ==> r[k] in r;
  }

  /** In a strictly increasing sequence, positions are ordered as their values are. */
  lemma SortedIndex(xs: seq<int>, i: int, j: int)
    requires forall a, b :: 0 <= a < b < |xs| ==> xs[a] < xs[b]
    requires 0 <= i < |xs| && 0 <= j < |xs| && xs[i] < xs[j]
    ensures i < j
  {
  }

  /** `np.argmax`: the first position of the largest value. */
  function ArgMax(v: seq<int>): (k: nat)
    requires |v| > 0
    ensures k < |v|
    ensures forall i :: 0 <= i < |v| ==> v[i] <= v[k]
    ensures forall i :: 0 <= i < k ==> v[i] < v[k]
  {
    if |v| == 1 then 0
    else
      var k := ArgMax(v[..|v| - 1]);
      assert forall i :: 0 <= i < |v| - 1 ==> v[..|v| - 1][i] == v[i];
      if v[|v| - 1] > v[k] then |v| - 1 else k
  }

  /** What the guard of `_ddplus` decides. `Return` is the early return of
      `(idx_us_main, dd_new, subidx_out_new)`; `Trace` goes on to trace the
      main upstream outlet `subidxUs` of the upstream cell `idxUsMain`;
      `AssertionFailed` is the failure of the assertion that the new
      direction is not a pit. */
  datatype Guard =
    | Return(idxUsMain: int, ddNew: int, subidxOutNew: int)
    | Trace(idxUsMain: int, ddNew: int, subidxUs: int)
    | AssertionFailed

  /** The low-resolution inputs: downstream indices in the grid or `-1`,
      and outlets that are `-1` or subgrid cells. */
  ghost predicate LrInputs(g: Grid, nextLr: seq<int>, outletLr: seq<int>, lrNcol: int) {
    && Valid(g) && lrNcol > 0
    && |outletLr| == |nextLr|
    && (forall i :: 0 <= i < |nextLr| ==> -1 <= nextLr[i] < |nextLr|)
    && (forall i :: 0 <= i < |outletLr| ==> -1 <= outletLr[i] < |g.upa|)
  }

  /** Upstream area at the outlets of `idxs` (an outlet `-1` reads the last
      cell, as Python indexing does). */
  function OutletAreas(g: Grid, outletLr: seq<int>, idxs: seq<int>): (r: seq<int>)
    requires |g.upa| > 0
    requires forall k :: 0 <= k < |idxs| ==> 0 <= idxs[k] < |outletLr|
    requires forall i :: 0 <= i < |outletLr| ==> -1 <= outletLr[i] < |g.upa|
    ensures |r| == |idxs|
    ensures forall k :: 0 <= k < |idxs| ==> r[k] == OutletArea(g, outletLr, idxs[k])
  {
    if |idxs| == 0 then [] else [OutletArea(g, outletLr, idxs[0])] + OutletAreas(g, outletLr, idxs[1..])
  }

  /** Upstream area at the outlet of low-resolution cell `u`. */
  function OutletArea(g: Grid, outletLr: seq<int>, u: int): int
    requires |g.upa| > 0 && 0 <= u < |outletLr| && -1 <= outletLr[u] < |g.upa|
  {
    PyIndex(g.upa, outletLr[u])
  }

  /** `idxs_us[np.argmax(uparea_flat[outlet_lr_flat[idxs_us]])]`: the
      upstream cell of `idx0` whose outlet has the largest upstream area,
      the lowest-numbered one among equals. */
  function MainUpstreamLr(g: Grid, nextLr: seq<int>, outletLr: seq<int>, idx0: int): (u: int)
    requires |g.upa| > 0 && |outletLr| == |nextLr| && (forall i :: 0 <= i < |outletLr| ==> -1 <= outletLr[i] < |g.upa|)
    requires |UsIndices(nextLr, idx0)| > 0
    ensures 0 <= u < |nextLr| && nextLr[u] == idx0 && u != idx0
    ensures forall v :: 0 <= v < |nextLr| && nextLr[v] == idx0 && v != idx0 ==>
              OutletArea(g, outletLr, v) <= OutletArea(g, outletLr, u)
    ensures forall v :: 0 <= v < u && nextLr[v] == idx0 && v != idx0 ==>
              OutletArea(g, outletLr, v) < OutletArea(g, outletLr, u)
  {
    var idxsUs := UsIndices(nextLr, idx0);
    UsIndicesInRange(nextLr, idx0);
    var areas := OutletAreas(g, outletLr, idxsUs);
    var maxi := ArgMax(areas);
    ArgMaxUpstream(g, nextLr, outletLr, idx0, idxsUs, areas, maxi);
    idxsUs[maxi]
  }

  /** The position `maxi` of the largest outlet area among the upstream
      cells `idxsUs` names the main upstream cell. */
  lemma ArgMaxUpstream(g: Grid, nextLr: seq<int>, outletLr: seq<int>, idx0: int, idxsUs: seq<int>,
                       areas: seq<int>, maxi: int)
    requires |g.upa| > 0 && |outletLr| == |nextLr| && (forall i :: 0 <= i < |outletLr| ==> -1 <= outletLr[i] < |g.upa|)
    requires idxsUs == UsIndices(nextLr, idx0)
    requires forall k :: 0 <= k < |idxsUs| ==> 0 <= idxsUs[k] < |outletLr|
    requires |idxsUs| > 0 && areas == OutletAreas(g, outletLr, idxsUs) && maxi == ArgMax(areas)
    ensures var u := idxsUs[maxi];
            && 0 <= u < |nextLr| && nextLr[u] == idx0 && u != idx0
            && (forall v :: 0 <= v < |nextLr| && nextLr[v] == idx0 && v != idx0 ==>
                  OutletArea(g, outletLr, v) <= OutletArea(g, outletLr, u))
            && (forall v :: 0 <= v < u && nextLr[v] == idx0 && v != idx0 ==>
                  OutletArea(g, outletLr, v) < OutletArea(g, outletLr, u))
  {
    MaxAmongUpstream(g, nextLr, outletLr, idx0, idxsUs, areas, maxi);
  }

  /** The same, from what `OutletAreas` and `ArgMax` promise. */
  lemma MaxAmongUpstream(g: Grid, nextLr: seq<int>, outletLr: seq<int>, idx0: int, idxsUs: seq<int>,
                         areas: seq<int>, maxi: int)
    requires |g.upa| > 0 && |outletLr| == |nextLr| && (forall i :: 0 <= i < |outletLr| ==> -1 <= outletLr[i] < |g.upa|)
    requires idxsUs == UsIndices(nextLr, idx0)
    requires forall k :: 0 <= k < |idxsUs| ==> 0 <= idxsUs[k] < |outletLr|
    requires |areas| == |idxsUs| && forall k :: 0 <= k < |idxsUs| ==> areas[k] == OutletArea(g, outletLr, idxsUs[k])
    requires 0 <= maxi < |idxsUs|
    requires forall i :: 0 <= i < |areas| ==> areas[i] <= areas[maxi]
    requires forall i :: 0 <= i < maxi ==> areas[i] < areas[maxi]
    ensures var u := idxsUs[maxi];
            && 0 <= u < |nextLr| && nextLr[u] == idx0 && u != idx0
            && (forall v :: 0 <= v < |nextLr| && nextLr[v] == idx0 && v != idx0 ==>
                  OutletArea(g, outletLr, v) <= OutletArea(g, outletLr, u))
            && (forall v :: 0 <= v < u && nextLr[v] == idx0 && v != idx0 ==>
                  OutletArea(g, outletLr, v) < OutletArea(g, outletLr, u))
  {
    assert idxsUs[maxi] in idxsUs;
    forall v | 0 <= v < |nextLr| && nextLr[v] == idx0 && v != idx0
      ensures OutletArea(g, outletLr, v) <= OutletArea(g, outletLr, idxsUs[maxi])
      ensures v < idxsUs[maxi] ==> OutletArea(g, outletLr, v) < OutletArea(g, outletLr, idxsUs[maxi])
    {
      assert v in idxsUs;
      var k :| 0 <= k < |idxsUs| && idxsUs[k] == v;
      assert areas[k] <= areas[maxi];
      if v < idxsUs[maxi] {
        SortedIndex(idxsUs, k, maxi);
        assert areas[k] < areas[maxi];
      }
    }
  }

  /** The guard of `_ddplus(idx0)`. */
  function DdPlusGuard(g: Grid, nextLr: seq<int>, outletLr: seq<int>, lrNcol: int, idx0: int): Guard
    requires LrInputs(g, nextLr, outletLr, lrNcol) && 0 <= idx0 < |nextLr|
  {
    var idxsUs := UsIndices(nextLr, idx0);
    var idxDs := nextLr[idx0];
    if |idxsUs| == 0 || idxDs == idx0 || idxDs < 0 then
      Return(idx0, D8.Nodata, outletLr[idx0])
    else
      // the D8 code from the main upstream cell to the downstream cell
      var idxUsMain := MainUpstreamLr(g, nextLr, outletLr, idx0);
      var ddNew := D8.IdxToDd(idxUsMain, idxDs, lrNcol);
      if D8.IsPit(ddNew) then AssertionFailed
      else if ddNew == D8.Nodata then Return(idx0, D8.Nodata, outletLr[idx0])
      else Trace(idxUsMain, ddNew, outletLr[idxUsMain])
  }

  /** The guard leaves the cell unchanged, returning `(idx0, nodata, its
      outlet)`, when it does not go on; it does so when the cell has no
      upstream cell, is a pit or drains out of the grid, or when its main
      upstream cell is not a D8 neighbour of its downstream cell. */
  lemma DdPlusEarlyReturn(g: Grid, nextLr: seq<int>, outletLr: seq<int>, lrNcol: int, idx0: int)
    requires LrInputs(g, nextLr, outletLr, lrNcol) && 0 <= idx0 < |nextLr|
    ensures DdPlusGuard(g, nextLr, outletLr, lrNcol, idx0).Return? ==>
              DdPlusGuard(g, nextLr, outletLr, lrNcol, idx0) == Return(idx0, D8.Nodata, outletLr[idx0])
    ensures (forall u :: 0 <= u < |nextLr| ==> nextLr[u] != idx0 || u == idx0) ==>
              DdPlusGuard(g, nextLr, outletLr, lrNcol, idx0) == Return(idx0, D8.Nodata, outletLr[idx0])
    ensures nextLr[idx0] == idx0 || nextLr[idx0] == -1 ==>
              DdPlusGuard(g, nextLr, outletLr, lrNcol, idx0) == Return(idx0, D8.Nodata, outletLr[idx0])
    ensures (forall u :: 0 <= u < |nextLr| && nextLr[u] == idx0 && u != idx0 ==>
               !(0 <= nextLr[idx0] && D8.IdxToDd(u, nextLr[idx0], lrNcol) != D8.Nodata)) ==>
              !DdPlusGuard(g, nextLr, outletLr, lrNcol, idx0).Trace?
  {
    var idxsUs := UsIndices(nextLr, idx0);
    if |idxsUs| > 0 {
      assert idxsUs[0] in idxsUs;
    }
  }

  /** When the guard lets the cell through, `idxUsMain` is the main upstream
      cell of `idx0`, `ddNew` is a neighbour code from it to the downstream
      cell of `idx0`, and `subidxUs` is its outlet. */
  lemma DdPlusTrace(g: Grid, nextLr: seq<int>, outletLr: seq<int>, lrNcol: int, idx0: int)
    requires LrInputs(g, nextLr, outletLr, lrNcol) && 0 <= idx0 < |nextLr|
    requires DdPlusGuard(g, nextLr, outletLr, lrNcol, idx0).Trace?
    ensures |UsIndices(nextLr, idx0)| > 0
    ensures var r := DdPlusGuard(g, nextLr, outletLr, lrNcol, idx0);
            && r.idxUsMain == MainUpstreamLr(g, nextLr, outletLr, idx0)
            && 0 <= nextLr[idx0] < |nextLr| && nextLr[idx0] != idx0
            && r.ddNew == D8.IdxToDd(r.idxUsMain, nextLr[idx0], lrNcol)
            && r.ddNew != D8.Nodata && !D8.IsPit(r.ddNew)
            && r.subidxUs == outletLr[r.idxUsMain]
  {
  }

  /** On an acyclic low-resolution grid the assertion of `_ddplus` holds: the
      main upstream cell is not the downstream cell, so the new direction is
      never a pit code. */
  lemma DdPlusNoPit(g: Grid, nextLr: seq<int>, outletLr: seq<int>, lrNcol: int, idx0: int, rankLr: seq<nat>)
    requires LrInputs(g, nextLr, outletLr, lrNcol) && 0 <= idx0 < |nextLr|
    requires Ranked(nextLr, rankLr)
    ensures !DdPlusGuard(g, nextLr, outletLr, lrNcol, idx0).AssertionFailed?
  {
    var idxsUs := UsIndices(nextLr, idx0);
    var idxDs := nextLr[idx0];
    if !(|idxsUs| == 0 || idxDs == idx0 || idxDs < 0) {
      var u := MainUpstreamLr(g, nextLr, outletLr, idx0);
      assert rankLr[idx0] < rankLr[u] && rankLr[idxDs] < rankLr[idx0];
      D8.IdxToDdIsPit(u, idxDs, lrNcol);
    }
  }
}
