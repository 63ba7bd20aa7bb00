/** The driver `d8_scaling`: its first loop picks an outlet per tile and
    marks the subgrid cells around it, its second loop gives each tile a
    low-resolution flow direction. The passes that follow (`_ddext` and
    `_ddplus`) are not part of this module. */
module Scaling {
  import Arith
  import opened FlowGrid
  import D8
  import Tiles
  import Walks
  import Representative
  import PitFix

  /** `a[idxs] = v`. */
  method AssignAt(a: array<int>, idxs: seq<int>, v: int)
    requires forall k :: 0 <= k < |idxs| ==> 0 <= idxs[k] < a.Length
    modifies a
    ensures forall i :: 0 <= i < a.Length ==> a[i] == if i in idxs then v else old(a[i])
  {
    for k := 0 to |idxs|
      invariant forall i :: 0 <= i < a.Length ==> a[i] == if i in idxs[..k] then v else old(a[i])
    {
      a[idxs[k]] := v;
      assert idxs[..k + 1] == idxs[..k] + [idxs[k]];
    }
    assert idxs[..|idxs|] == idxs;
  }

  // ---------------------------------------------------------------------
  // Loop 1: outlets and effare marks

  /** The effare mark of subgrid cell `c` once the first `|rcs|` tiles are
      done, where tile `t` has the effective-area cells `eas[t]` and the
      stream `rcs[t]` from its representative cell to its outlet (the last
      cell): 3 for the outlet, else 1 in the effective area, else 2 on the
      stream, else 0. Only the cell's own tile decides. */
  ghost function Mark(g: Grid, s: int, eas: seq<seq<int>>, rcs: seq<seq<int>>, c: int): int
    requires g.ncol > 0 && s > 0 && |eas| == |rcs|
    requires forall t :: 0 <= t < |rcs| ==> |rcs[t]| > 0
  {
    var t := Tile(g, s, c);
    if 0 <= t < |rcs| then
      if c == rcs[t][|rcs[t]| - 1] then 3
      else if c in eas[t] then 1
      else if c in rcs[t] then 2
      else 0
    else 0
  }

  /** What the first loop computes for tile `t`: its representative cell
      `rep` and effective-area cells `ea` (`_rep_cell`), and the stream `rc` from `rep` to the
      outlet (`_outlet`). */
  ghost predicate TileMarks(g: Grid, s: int, effMask: seq<bool>, t: int,
                            rep: int, ea: seq<int>, tm: int, rc: seq<int>)
    requires Representative.TileArgs(g, s, t, effMask)
  {
    && Representative.IsRepCell(g, s, t, effMask, rep, ea, tm)
    && Walks.OutletTrace(g, s, t, rep, rc)
  }

  /** The outlet of a tile and every cell the first loop marks for it lie in
      that tile. */
  lemma TileMarksInTile(g: Grid, s: int, effMask: seq<bool>, t: int,
                        rep: int, ea: seq<int>, tm: int, rc: seq<int>)
    requires Representative.TileArgs(g, s, t, effMask)
    requires TileMarks(g, s, effMask, t, rep, ea, tm, rc)
    ensures forall c :: c in rc ==> 0 <= c < |g.next| && Tile(g, s, c) == t
    ensures forall c :: c in ea ==> 0 <= c < |g.next| && Tile(g, s, c) == t
  {
    forall c | c in rc
      ensures 0 <= c < |g.next| && Tile(g, s, c) == t
    {
      var k :| 0 <= k < |rc| && rc[k] == c;
    }
    forall c | c in ea
      ensures 0 <= c < |g.next| && Tile(g, s, c) == t
    {
      var k :| 0 <= k < |ea| && ea[k] == c;
    }
  }

  /** One iteration of the first loop, for tile `idx0`. */
  method MarkTile(g: Grid, s: int, effMask: seq<bool>, idx0: int, outletLr: array<int>, effare: array<int>,
                  ghost rank: seq<nat>)
    returns (ghost rep: int, ghost ea: seq<int>, ghost tm: int, ghost rc: seq<int>)
    requires Representative.TileArgs(g, s, idx0, effMask) && Ranked(g.next, rank)
    requires outletLr.Length == LrSize(g, s) && effare.Length == |g.next| && outletLr != effare
    modifies outletLr, effare
    ensures TileMarks(g, s, effMask, idx0, rep, ea, tm, rc)
    ensures outletLr[..] == old(outletLr[..])[idx0 := rc[|rc| - 1]]
    ensures forall c :: 0 <= c < effare.Length ==>
              effare[c] == if Tile(g, s, c) != idx0 then old(effare[c])
                           else if c == rc[|rc| - 1] then 3
                           else if c in ea then 1
                           else if c in rc then 2
                           else old(effare[c])
  {
    var subidx, subidxsEa, tm0 := Representative.RepCell(g, s, idx0, effMask);
    var subidxOut, subidxsRc := Walks.Outlet(g, s, idx0, subidx, rank);
    rep, ea, tm, rc := subidx, subidxsEa, tm0, subidxsRc;
    TileMarksInTile(g, s, effMask, idx0, rep, ea, tm, rc);
    outletLr[idx0] := subidxOut;
    // stream marks first, then effective area, then the outlet
    AssignAt(effare, subidxsRc, 2);
    AssignAt(effare, subidxsEa, 1);
    AssignAt(effare, [subidxOut], 3);
  }

  /** The first loop of `d8_scaling`: for every tile in turn, its
      representative cell, its outlet, and the marks 2 (stream), 1
      (effective area) and 3 (outlet) written into `effare`, which starts
      all zero. When it is done, every outlet lies in its own tile (so no
      two tiles share an outlet) and each cell carries the mark its own tile
      gives it. */
  method MarkOutlets(g: Grid, s: int, effMask: seq<bool>, outletLr: array<int>, effare: array<int>,
                     ghost rank: seq<nat>)
    returns (ghost reps: seq<int>, ghost eas: seq<seq<int>>, ghost tms: seq<int>, ghost rcs: seq<seq<int>>)
    requires Walks.WalkInputs(g, s, effare[..]) && |effMask| == s * s && Ranked(g.next, rank)
    requires outletLr.Length == LrSize(g, s) && outletLr != effare
    requires forall c :: 0 <= c < effare.Length ==> effare[c] == 0
    modifies outletLr, effare
    ensures MarksDone(g, s, effMask, outletLr[..], effare[..], reps, eas, tms, rcs)
  {
    reps, eas, tms, rcs := [], [], [], [];
    for idx0 := 0 to outletLr.Length
      invariant |effare[..]| == |g.next| && |rcs| == idx0
      invariant MarksSoFar(g, s, effMask, outletLr[..], effare[..], reps, eas, tms, rcs)
    {
      ghost var outlets, before := outletLr[..], effare[..];
      var rep, ea, tm, rc := MarkTile(g, s, effMask, idx0, outletLr, effare, rank);
      MarkTileStep(g, s, effMask, outlets, before, outletLr[..], effare[..], reps, eas, tms, rcs, rep, ea, tm, rc);
      reps, eas, tms, rcs := reps + [rep], eas + [ea], tms + [tm], rcs + [rc];
    }
    OutletsDistinct(g, s, outletLr[..]);
  }

  /** The state after the first `|rcs|` tiles: tile `t` has the
      representative cell `reps[t]`, the effective-area cells `eas[t]` and
      the outlet stream `rcs[t]`, whose last cell is its outlet
      `outlets[t]`, which lies in tile `t`; and every cell carries the mark
      its own tile gives it. */
  ghost predicate MarksSoFar(g: Grid, s: int, effMask: seq<bool>, outlets: seq<int>, effare: seq<int>,
                             reps: seq<int>, eas: seq<seq<int>>, tms: seq<int>, rcs: seq<seq<int>>)
    requires Walks.WalkInputs(g, s, effare) && |effMask| == s * s
  {
    && |reps| == |eas| == |tms| == |rcs| <= LrSize(g, s) && |outlets| == LrSize(g, s)
    && (forall t :: 0 <= t < |rcs| ==>
          |rcs[t]| > 0 && TileMarks(g, s, effMask, t, reps[t], eas[t], tms[t], rcs[t]))
    && (forall t :: 0 <= t < |rcs| ==>
          && outlets[t] == rcs[t][|rcs[t]| - 1]
          && 0 <= outlets[t] < |g.next| && Tile(g, s, outlets[t]) == t)
    && (forall c :: 0 <= c < |effare| ==> effare[c] == Mark(g, s, eas, rcs, c))
  }

  /** The state after the first loop: all tiles are done, so the outlets are
      distinct. */
  ghost predicate MarksDone(g: Grid, s: int, effMask: seq<bool>, outlets: seq<int>, effare: seq<int>,
                            reps: seq<int>, eas: seq<seq<int>>, tms: seq<int>, rcs: seq<seq<int>>)
    requires Walks.WalkInputs(g, s, effare) && |effMask| == s * s
  {
    && MarksSoFar(g, s, effMask, outlets, effare, reps, eas, tms, rcs)
    && |rcs| == LrSize(g, s)
    && Distinct(outlets)
  }

  /** One iteration of the first loop keeps `MarksSoFar`: the new tile's
      outlet is stored and its cells take its marks. */
  lemma MarkTileStep(g: Grid, s: int, effMask: seq<bool>, outlets: seq<int>, before: seq<int>,
                     outlets1: seq<int>, after: seq<int>,
                     reps: seq<int>, eas: seq<seq<int>>, tms: seq<int>, rcs: seq<seq<int>>,
                     rep: int, ea: seq<int>, tm: int, rc: seq<int>)
    requires Walks.WalkInputs(g, s, before) && |effMask| == s * s && |after| == |before|
    requires MarksSoFar(g, s, effMask, outlets, before, reps, eas, tms, rcs) && |rcs| < LrSize(g, s)
    requires TileMarks(g, s, effMask, |rcs|, rep, ea, tm, rc)
    requires outlets1 == outlets[|rcs| := rc[|rc| - 1]]
    requires forall c :: 0 <= c < |after| ==>
               after[c] == if Tile(g, s, c) != |rcs| then before[c]
                           else if c == rc[|rc| - 1] then 3
                           else if c in ea then 1
                           else if c in rc then 2
                           else before[c]
    ensures MarksSoFar(g, s, effMask, outlets1, after, reps + [rep], eas + [ea], tms + [tm], rcs + [rc])
  {
    var n := |rcs|;
    TileMarksInTile(g, s, effMask, n, rep, ea, tm, rc);
    MarkStep(g, s, eas, rcs, ea, rc, before, after);
    assert rc[|rc| - 1] in rc;
    forall t | 0 <= t < n + 1
      ensures |(rcs + [rc])[t]| > 0
      ensures TileMarks(g, s, effMask, t, (reps + [rep])[t], (eas + [ea])[t], (tms + [tm])[t], (rcs + [rc])[t])
      ensures outlets1[t] == (rcs + [rc])[t][|(rcs + [rc])[t]| - 1]
      ensures 0 <= outlets1[t] < |g.next| && Tile(g, s, outlets1[t]) == t
    {
      if t < n {
        assert (reps + [rep])[t] == reps[t] && (eas + [ea])[t] == eas[t];
        assert (tms + [tm])[t] == tms[t] && (rcs + [rc])[t] == rcs[t];
      }
    }
  }

  /** The marks after one more tile: cells of the new tile take its marks,
      every other cell keeps its mark. */
  lemma MarkStep(g: Grid, s: int, eas: seq<seq<int>>, rcs: seq<seq<int>>, ea: seq<int>, rc: seq<int>,
                 before: seq<int>, after: seq<int>)
    requires g.ncol > 0 && s > 0 && |eas| == |rcs| && |rc| > 0
    requires forall t :: 0 <= t < |rcs| ==> |rcs[t]| > 0
    requires |before| == |after|
    requires forall c :: 0 <= c < |before| ==> before[c] == Mark(g, s, eas, rcs, c)
    requires forall c :: 0 <= c < |after| ==>
               after[c] == if Tile(g, s, c) != |rcs| then before[c]
                           else if c == rc[|rc| - 1] then 3
                           else if c in ea then 1
                           else if c in rc then 2
                           else before[c]
    ensures forall c :: 0 <= c < |after| ==> after[c] == Mark(g, s, eas + [ea], rcs + [rc], c)
  {
    forall c | 0 <= c < |after|
      ensures after[c] == Mark(g, s, eas + [ea], rcs + [rc], c)
    {
      var t := Tile(g, s, c);
      if 0 <= t < |rcs| {
        assert (eas + [ea])[t] == eas[t] && (rcs + [rc])[t] == rcs[t];
      } else if t == |rcs| {
        assert (eas + [ea])[t] == ea && (rcs + [rc])[t] == rc;
      }
    }
  }

  /** Outlets that each lie in their own tile are distinct: the source's
      closing `outlet_lr_flat.size == np.unique(outlet_lr_flat).size` holds
      after the first loop. */
  lemma OutletsDistinct(g: Grid, s: int, outlets: seq<int>)
    requires g.ncol > 0 && s > 0
    requires forall t :: 0 <= t < |outlets| ==> Tile(g, s, outlets[t]) == t
    ensures Distinct(outlets)
  {
    forall i, j | 0 <= i < j < |outlets|
      ensures outlets[i] != outlets[j]
    {
      assert Tile(g, s, outlets[i]) == i && Tile(g, s, outlets[j]) == j;
    }
  }

  /** The precedence of the marks: the outlet of each tile is 3; a cell of
      its effective area other than the outlet is 1; a cell of its outlet
      stream in neither is 2; a cell no tile marks is 0. */
  lemma MarkPrecedence(g: Grid, s: int, effMask: seq<bool>, reps: seq<int>, eas: seq<seq<int>>, tms: seq<int>,
                       rcs: seq<seq<int>>, t: int, c: int)
    requires Valid(g) && s > 0 && g.ncol >= s
    requires |effMask| == s * s && |reps| == |eas| == |tms| == |rcs| == LrSize(g, s)
    requires forall u :: 0 <= u < LrSize(g, s) ==>
               |rcs[u]| > 0 && TileMarks(g, s, effMask, u, reps[u], eas[u], tms[u], rcs[u])
    requires 0 <= t < LrSize(g, s)
    ensures c == rcs[t][|rcs[t]| - 1] ==> Mark(g, s, eas, rcs, c) == 3
    ensures c != rcs[t][|rcs[t]| - 1] && c in eas[t] ==> Mark(g, s, eas, rcs, c) == 1
    ensures c != rcs[t][|rcs[t]| - 1] && c !in eas[t] && c in rcs[t] ==> Mark(g, s, eas, rcs, c) == 2
    ensures (forall u :: 0 <= u < LrSize(g, s) ==> c !in eas[u] && c !in rcs[u]) ==> Mark(g, s, eas, rcs, c) == 0
  {
    TileMarksInTile(g, s, effMask, t, reps[t], eas[t], tms[t], rcs[t]);
    assert rcs[t][|rcs[t]| - 1] in rcs[t];
    var u := Tile(g, s, c);
    if 0 <= u < LrSize(g, s) {
      assert rcs[u][|rcs[u]| - 1] in rcs[u];
    }
  }

  // ---------------------------------------------------------------------
  // Loop 2: low-resolution directions

  /** `path` is the connectivity walk of the second loop from `start`: it
      follows the flow, stops at the first cell after `start` marked 3 (an
      outlet) or where the flow ends (the edge of the domain or a pit). */
  ghost predicate ToOutletTrace(g: Grid, effare: seq<int>, start: int, path: seq<int>)
    requires Valid(g) && |effare| == |g.next|
  {
    && IsDsPath(g.next, path) && path[0] == start
    && (forall k :: 1 <= k < |path| - 1 ==> effare[path[k]] != 3)
    && var last := path[|path| - 1];
       (|path| >= 2 && effare[last] == 3) || g.next[last] == -1 || g.next[last] == last
  }

  /** The walk `while ea != 3` of the second loop. */
  method DownToOutlet(g: Grid, subidx0: int, effare: seq<int>, ghost rank: seq<nat>)
    returns (subidx: int, ghost path: seq<int>)
    requires Valid(g) && |effare| == |g.next| && Ranked(g.next, rank)
    requires 0 <= subidx0 < |g.next|
    ensures ToOutletTrace(g, effare, subidx0, path) && subidx == path[|path| - 1]
  {
    var ea := 1;
    subidx := subidx0;
    path := [subidx0];
    while ea != 3
      invariant IsDsPath(g.next, path) && path[0] == subidx0 && subidx == path[|path| - 1]
      invariant forall k :: 1 <= k < |path| - 1 ==> effare[path[k]] != 3
      invariant ea == if |path| == 1 then 1 else effare[subidx]
      decreases rank[subidx]
    {
      var subidxDs := g.next[subidx];
      if subidxDs == -1 || subidxDs == subidx {
        break;
      }
      ea := effare[subidxDs];
      DsPathSnoc(g.next, path, subidxDs);
      subidx := subidxDs;
      path := path + [subidx];
    }
  }

  /** The ghost record of how the second loop reached its values for one
      tile: the outcome of `_dd`, that of `_fix_pit_outlets` when it is
      called, and the connectivity walk when it is made. */
  datatype DirWitness = DirWitness(ddRaw: int, subidxDs: int, idxDs: int, path: seq<int>,
                                   fixOut: int, stop: nat, up: seq<int>, pathCheck: seq<int>)

  /** `_dd` ended in a pit code at a cell (a real pit, or the edge of the
      window) although the outlet itself is no pit: the case of
      `_fix_pit_outlets`. */
  predicate NeedsPitFix(g: Grid, subidx0: int, ddRaw: int, subidxDs: int)
    requires 0 <= subidx0 < |g.flwdir|
  {
    subidxDs != -1 && D8.IsPit(ddRaw) && !D8.IsPit(g.flwdir[subidx0])
  }

  /** The second loop's body for tile `idx0` with outlet `subidx0` yields
      `ok` (false when the source raises), the direction `dd`, the outlet
      `outlet` and whether the tile is listed for the misconnection check
      (`changed`): the direction of `_dd`, repaired by `_fix_pit_outlets`
      if it is a pit code at a cell other than an outlet that is itself a
      pit; or, when the direction is valid but `_dd` ended off any stream
      or outlet (effare at most 1), the tile is listed exactly when the walk
      to the next outlet ends in a tile other than the one `dd` points to.
      The outlet only moves when the repair moves it onto a pit. */
  ghost predicate DirectionSpec(g: Grid, s: int, idx0: int, subidx0: int, effare: seq<int>, mainUs: seq<int>,
                                extended: bool, ok: bool, dd: int, outlet: int, changed: bool, w: DirWitness)
    requires Walks.WalkInputs(g, s, effare) && PitFix.MainUpstream(g, mainUs) && 0 <= subidx0 < |g.next|
  {
    Tiles.LrNcolPositive(g.ncol, s);
    && Walks.DdTrace(g, s, effare, idx0, subidx0, extended, w.ddRaw, w.subidxDs, w.idxDs, w.path)
    && (w.subidxDs == -1 || w.subidxDs == w.path[|w.path| - 1])
    && if NeedsPitFix(g, subidx0, w.ddRaw, w.subidxDs) then
         && PitFix.FixPitOutcome(g, s, idx0, subidx0, w.subidxDs, effare, mainUs, w.path,
                                 ok, dd, w.fixOut, w.stop, w.up)
         && outlet == (if ok && D8.IsPit(dd) then w.fixOut else subidx0)
         && !changed
       else
         && ok && dd == w.ddRaw && outlet == subidx0
         && if dd != D8.Nodata && PyIndex(effare, w.subidxDs) <= 1 then
              && ToOutletTrace(g, effare, subidx0, w.pathCheck)
              && changed == (D8.IdxToDd(idx0, Tile(g, s, w.pathCheck[|w.pathCheck| - 1]), LrNcol(g, s)) != dd)
            else !changed
  }

  /** The second loop moves an outlet only onto a pit of the subgrid, at the
      end of the walk of `_dd`, and then gives the tile that pit's code. */
  lemma OutletMovesToPit(g: Grid, s: int, idx0: int, subidx0: int, effare: seq<int>, mainUs: seq<int>,
                         extended: bool, dd: int, outlet: int, changed: bool, w: DirWitness)
    requires Walks.WalkInputs(g, s, effare) && PitFix.MainUpstream(g, mainUs) && 0 <= subidx0 < |g.next|
    requires DirectionSpec(g, s, idx0, subidx0, effare, mainUs, extended, true, dd, outlet, changed, w)
    requires outlet != subidx0
    ensures outlet == w.subidxDs == w.path[|w.path| - 1]
    ensures D8.IsPit(dd) && dd == g.flwdir[outlet] && D8.IsPit(g.flwdir[outlet]) && g.next[outlet] == outlet
  {
    PitFix.FixPitKeepsPit(g, s, idx0, subidx0, w.subidxDs, effare, mainUs, w.path, true, dd, w.fixOut, w.stop, w.up);
    Tiles.LrNcolPositive(g.ncol, s);
    var path := w.path;
    if !PitFix.RatioBelowTwo(g.upa[path[w.stop]], g.upa[path[w.stop - 1]]) {
      assert false;
    }
  }

  /** The end cell `_dd` returns is the last cell of its path, or `-1`. */
  lemma DdTraceEnd(g: Grid, s: int, effare: seq<int>, idx0: int, start: int, extended: bool,
                   dd: int, subidxDs: int, idxDs: int, path: seq<int>)
    requires Walks.WalkInputs(g, s, effare)
    requires Walks.DdTrace(g, s, effare, idx0, start, extended, dd, subidxDs, idxDs, path)
    ensures subidxDs == -1 || subidxDs == path[|path| - 1]
  {
  }

  /** One iteration of the second loop, for tile `idx0` whose outlet from
      the first loop is `subidx0`. */
  method TileDirection(g: Grid, s: int, idx0: int, subidx0: int, effare: seq<int>, mainUs: seq<int>,
                       extended: bool, ghost rank: seq<nat>)
    returns (ok: bool, dd: int, outlet: int, changed: bool, ghost w: DirWitness)
    requires Walks.WalkInputs(g, s, effare) && Ranked(g.next, rank) && PitFix.MainUpstream(g, mainUs)
    requires 0 <= subidx0 < |g.next| && Tile(g, s, subidx0) == idx0
    ensures DirectionSpec(g, s, idx0, subidx0, effare, mainUs, extended, ok, dd, outlet, changed, w)
  {
    var ddRaw, subidxOut, idxDs, path := Walks.Dd(g, s, idx0, subidx0, effare, extended, rank);
    DdTraceEnd(g, s, effare, idx0, subidx0, extended, ddRaw, subidxOut, idxDs, path);
    ok, dd, outlet, changed, w := AfterDd(g, s, idx0, subidx0, effare, mainUs, extended, ddRaw, subidxOut, idxDs, path, rank);
  }

  /** The rest of the iteration, once `_dd` has returned `ddRaw`,
      `subidxOut` and `idxDs` by the walk `path`. */
  method AfterDd(g: Grid, s: int, idx0: int, subidx0: int, effare: seq<int>, mainUs: seq<int>, extended: bool,
                 ddRaw: int, subidxOut: int, idxDs: int, ghost path: seq<int>, ghost rank: seq<nat>)
    returns (ok: bool, dd: int, outlet: int, changed: bool, ghost w: DirWitness)
    requires Walks.WalkInputs(g, s, effare) && Ranked(g.next, rank) && PitFix.MainUpstream(g, mainUs)
    requires 0 <= subidx0 < |g.next| && Tile(g, s, subidx0) == idx0
    requires Walks.DdTrace(g, s, effare, idx0, subidx0, extended, ddRaw, subidxOut, idxDs, path)
    requires subidxOut == -1 || subidxOut == path[|path| - 1]
    ensures DirectionSpec(g, s, idx0, subidx0, effare, mainUs, extended, ok, dd, outlet, changed, w)
  {
    Tiles.LrNcolPositive(g.ncol, s);
    w := DirWitness(ddRaw, subidxOut, idxDs, path, -1, 0, [], []);
    ok, dd, outlet, changed := true, ddRaw, subidx0, false;
    if subidxOut != -1 && D8.IsPit(ddRaw) && !D8.IsPit(g.flwdir[subidx0]) {
      // `_dd` ended at a pit in another tile: repair
      var ok1, dd1, out1, stop, up := PitFix.FixPitOutlets(g, s, idx0, subidx0, subidxOut, effare, mainUs, path, rank);
      ok, dd := ok1, dd1;
      if ok && D8.IsPit(dd) {
        // the repair moved the outlet onto the pit
        outlet := out1;
      }
      w := w.(fixOut := out1, stop := stop, up := up);
    } else if ddRaw != D8.Nodata && PyIndex(effare, subidxOut) <= 1 {
      // `_dd` ended off any stream: walk to the next outlet and compare
      var last, pathCheck := DownToOutlet(g, subidx0, effare, rank);
      var idxLast := Tile(g, s, last);
      changed := D8.IdxToDd(idx0, idxLast, LrNcol(g, s)) != ddRaw;
      w := w.(pathCheck := pathCheck);
    }
  }

  /** The tiles `t` with `changed[t]`, in increasing order: `idx_check`. */
  function ChangedTiles(changed: seq<bool>): seq<int>
  {
    if |changed| == 0 then []
    else
      var r := ChangedTiles(changed[..|changed| - 1]);
      if changed[|changed| - 1] then r + [|changed| - 1] else r
  }

  /** `idx_check` holds exactly the flagged tiles, each once, in increasing
      order. */
  lemma {:induction false} ChangedTilesFacts(changed: seq<bool>)
    ensures forall k :: 0 <= k < |ChangedTiles(changed)| ==>
              0 <= ChangedTiles(changed)[k] < |changed| && changed[ChangedTiles(changed)[k]]
    ensures forall t :: 0 <= t < |changed| && changed[t] ==> t in ChangedTiles(changed)
    ensures forall i, j :: 0 <= i < j < |ChangedTiles(changed)| ==> ChangedTiles(changed)[i] < ChangedTiles(changed)[j]
  {
    if |changed| > 0 {
      var p := changed[..|changed| - 1];
      ChangedTilesFacts(p);
      assert forall t :: 0 <= t < |p| ==> p[t] == changed[t];
    }
  }

  lemma ChangedTilesSnoc(changed: seq<bool>, c: bool)
    ensures ChangedTiles(changed + [c]) == ChangedTiles(changed) + if c then [|changed|] else []
  {
    assert (changed + [c])[..|changed|] == changed;
  }

  /** The state after the second loop has done its first `|ws|` tiles,
      where `outlets0` are the outlets of the first loop and `flwdirs`,
      `outlets` and `changds` the contents of the three low-resolution
      arrays: each done tile `t` holds the direction, outlet and change
      flag that `DirectionSpec` of its outlet `outlets0[t]` gives, with the
      witness `ws[t]`; the tiles not yet done keep their outlets and a zero
      flag; `idxCheck` lists the flagged tiles and `upaCheck` the upstream
      areas of their outlets. */
  ghost predicate DirectionsSoFar(g: Grid, s: int, effare: seq<int>, mainUs: seq<int>, extended: bool,
                                  outlets0: seq<int>, flwdirs: seq<int>, outlets: seq<int>, changds: seq<int>,
                                  idxCheck: seq<int>, upaCheck: seq<int>, chs: seq<bool>, ws: seq<DirWitness>)
    requires Walks.WalkInputs(g, s, effare) && PitFix.MainUpstream(g, mainUs)
  {
    && |outlets0| == |flwdirs| == |outlets| == |changds|
    && (forall t :: 0 <= t < |outlets0| ==> 0 <= outlets0[t] < |g.next|)
    && |chs| == |ws| <= |outlets0|
    && (forall t :: |ws| <= t < |outlets| ==> outlets[t] == outlets0[t] && changds[t] == 0)
    && (forall t :: 0 <= t < |ws| ==>
          && DirectionSpec(g, s, t, outlets0[t], effare, mainUs, extended, true, flwdirs[t], outlets[t], chs[t], ws[t])
          && changds[t] == (if chs[t] then 1 else 0))
    && idxCheck == ChangedTiles(chs) && |upaCheck| == |idxCheck|
    && (forall k :: 0 <= k < |idxCheck| ==> 0 <= idxCheck[k] < |ws| && upaCheck[k] == g.upa[outlets0[idxCheck[k]]])
  }

  /** The state after the second loop: `ok` when every tile is done;
      otherwise the loop stopped at tile `|ws|`, where the source raises,
      and `fail` is that tile's outcome. */
  ghost predicate DirectionsDone(g: Grid, s: int, effare: seq<int>, mainUs: seq<int>, extended: bool,
                                 outlets0: seq<int>, flwdirs: seq<int>, outlets: seq<int>, changds: seq<int>,
                                 ok: bool, idxCheck: seq<int>, upaCheck: seq<int>, chs: seq<bool>, ws: seq<DirWitness>,
                                 fail: (int, int, bool, DirWitness))
    requires Walks.WalkInputs(g, s, effare) && PitFix.MainUpstream(g, mainUs)
  {
    && DirectionsSoFar(g, s, effare, mainUs, extended, outlets0, flwdirs, outlets, changds, idxCheck, upaCheck, chs, ws)
    && (ok <==> |ws| == |outlets0|)
    && (!ok ==> DirectionSpec(g, s, |ws|, outlets0[|ws|], effare, mainUs, extended,
                              false, fail.0, fail.1, fail.2, fail.3))
  }

  /** One tile more of the second loop keeps `DirectionsSoFar`. */
  lemma DirectionsStep(g: Grid, s: int, effare: seq<int>, mainUs: seq<int>, extended: bool,
                       outlets0: seq<int>, flwdirs: seq<int>, outlets: seq<int>, changds: seq<int>,
                       flwdirs1: seq<int>, outlets1: seq<int>, changds1: seq<int>,
                       idxCheck: seq<int>, upaCheck: seq<int>, chs: seq<bool>, ws: seq<DirWitness>,
                       dd: int, outlet: int, changed: bool, w: DirWitness)
    requires Walks.WalkInputs(g, s, effare) && PitFix.MainUpstream(g, mainUs)
    requires DirectionsSoFar(g, s, effare, mainUs, extended, outlets0, flwdirs, outlets, changds, idxCheck, upaCheck, chs, ws)
    requires |ws| < |outlets0|
    requires DirectionSpec(g, s, |ws|, outlets0[|ws|], effare, mainUs, extended, true, dd, outlet, changed, w)
    requires flwdirs1 == flwdirs[|ws| := dd] && outlets1 == outlets[|ws| := outlet]
    requires changds1 == if changed then changds[|ws| := 1] else changds
    ensures DirectionsSoFar(g, s, effare, mainUs, extended, outlets0, flwdirs1, outlets1, changds1,
                            if changed then idxCheck + [|ws|] else idxCheck,
                            if changed then upaCheck + [g.upa[outlets0[|ws|]]] else upaCheck,
                            chs + [changed], ws + [w])
  {
    ChangedTilesSnoc(chs, changed);
    DirectionsStepTiles(g, s, effare, mainUs, extended, outlets0, flwdirs, outlets, changds,
                        flwdirs1, outlets1, changds1, chs, ws, dd, outlet, changed, w);
  }

  /** The done tiles of `DirectionsStep`. */
  lemma DirectionsStepTiles(g: Grid, s: int, effare: seq<int>, mainUs: seq<int>, extended: bool,
                            outlets0: seq<int>, flwdirs: seq<int>, outlets: seq<int>, changds: seq<int>,
                            flwdirs1: seq<int>, outlets1: seq<int>, changds1: seq<int>,
                            chs: seq<bool>, ws: seq<DirWitness>,
                            dd: int, outlet: int, changed: bool, w: DirWitness)
    requires Walks.WalkInputs(g, s, effare) && PitFix.MainUpstream(g, mainUs)
    requires |outlets0| == |flwdirs| == |outlets| == |changds| && |chs| == |ws| < |outlets0|
    requires forall t :: 0 <= t < |outlets0| ==> 0 <= outlets0[t] < |g.next|
    requires forall t :: 0 <= t < |ws| ==>
               && DirectionSpec(g, s, t, outlets0[t], effare, mainUs, extended, true, flwdirs[t], outlets[t], chs[t], ws[t])
               && changds[t] == (if chs[t] then 1 else 0)
    requires DirectionSpec(g, s, |ws|, outlets0[|ws|], effare, mainUs, extended, true, dd, outlet, changed, w)
    requires flwdirs1 == flwdirs[|ws| := dd] && outlets1 == outlets[|ws| := outlet]
    requires changds1 == if changed then changds[|ws| := 1] else changds
    requires changds[|ws|] == 0
    ensures forall t :: 0 <= t < |ws| + 1 ==>
              && DirectionSpec(g, s, t, outlets0[t], effare, mainUs, extended, true,
                               flwdirs1[t], outlets1[t], (chs + [changed])[t], (ws + [w])[t])
              && changds1[t] == (if (chs + [changed])[t] then 1 else 0)
  {
    var n := |ws|;
    forall t | 0 <= t < n + 1
      ensures DirectionSpec(g, s, t, outlets0[t], effare, mainUs, extended, true,
                            flwdirs1[t], outlets1[t], (chs + [changed])[t], (ws + [w])[t])
      ensures changds1[t] == (if (chs + [changed])[t] then 1 else 0)
    {
      if t < n {
        assert (chs + [changed])[t] == chs[t] && (ws + [w])[t] == ws[t];
        assert flwdirs1[t] == flwdirs[t] && outlets1[t] == outlets[t] && changds1[t] == changds[t];
      } else {
        assert (chs + [changed])[t] == changed && (ws + [w])[t] == w;
        assert flwdirs1[t] == dd && outlets1[t] == outlet;
      }
    }
  }

  /** The second loop of `d8_scaling` over the outlets `outletLr` of the
      first loop and the marks `effare` (see `DirectionsDone`). The loop
      ends early at the first tile where the source raises. */
  method AssignDirections(g: Grid, s: int, effare: seq<int>, mainUs: seq<int>, extended: bool,
                          outletLr: array<int>, flwdirLr: array<int>, changd: array<int>, ghost rank: seq<nat>)
    returns (ok: bool, idxCheck: seq<int>, upaCheck: seq<int>,
             ghost chs: seq<bool>, ghost ws: seq<DirWitness>, ghost fail: (int, int, bool, DirWitness))
    requires Walks.WalkInputs(g, s, effare) && Ranked(g.next, rank) && PitFix.MainUpstream(g, mainUs)
    requires outletLr.Length == flwdirLr.Length == changd.Length
    requires outletLr != flwdirLr && outletLr != changd && flwdirLr != changd
    requires forall t :: 0 <= t < outletLr.Length ==> 0 <= outletLr[t] < |g.next| && Tile(g, s, outletLr[t]) == t
    requires forall t :: 0 <= t < changd.Length ==> changd[t] == 0
    modifies outletLr, flwdirLr, changd
    ensures DirectionsDone(g, s, effare, mainUs, extended, old(outletLr[..]), flwdirLr[..], outletLr[..], changd[..],
                           ok, idxCheck, upaCheck, chs, ws, fail)
  {
    ok := true;
    idxCheck, upaCheck := [], [];
    chs, ws := [], [];
    fail := (-1, -1, false, DirWitness(-1, -1, -1, [], -1, 0, [], []));
    ghost var outlet0 := outletLr[..];
    for idx0 := 0 to flwdirLr.Length
      invariant |ws| == idx0
      invariant forall t :: 0 <= t < |outlet0| ==> 0 <= outlet0[t] < |g.next| && Tile(g, s, outlet0[t]) == t
      invariant DirectionsSoFar(g, s, effare, mainUs, extended, outlet0, flwdirLr[..], outletLr[..], changd[..],
                                idxCheck, upaCheck, chs, ws)
    {
      ghost var flwdirs, outlets, changds := flwdirLr[..], outletLr[..], changd[..];
      var subidx0 := outletLr[idx0];
      var okT, dd, outlet, changed, w := AssignTile(g, s, idx0, effare, mainUs, extended, outletLr, flwdirLr, changd, rank);
      if !okT {
        ok, fail := false, (dd, outlet, changed, w);
        return;
      }
      DirectionsStep(g, s, effare, mainUs, extended, outlet0, flwdirs, outlets, changds,
                     flwdirLr[..], outletLr[..], changd[..], idxCheck, upaCheck, chs, ws, dd, outlet, changed, w);
      chs, ws := chs + [changed], ws + [w];
      if changed {
        idxCheck := idxCheck + [idx0];
        upaCheck := upaCheck + [g.upa[subidx0]];
      }
    }
  }

  /** The body of the second loop for tile `idx0`: the tile's values are
      stored when the source does not raise. */
  method AssignTile(g: Grid, s: int, idx0: int, effare: seq<int>, mainUs: seq<int>, extended: bool,
                    outletLr: array<int>, flwdirLr: array<int>, changd: array<int>, ghost rank: seq<nat>)
    returns (ok: bool, dd: int, outlet: int, changed: bool, ghost w: DirWitness)
    requires Walks.WalkInputs(g, s, effare) && Ranked(g.next, rank) && PitFix.MainUpstream(g, mainUs)
    requires outletLr.Length == flwdirLr.Length == changd.Length && 0 <= idx0 < outletLr.Length
    requires outletLr != flwdirLr && outletLr != changd && flwdirLr != changd
    requires 0 <= outletLr[idx0] < |g.next| && Tile(g, s, outletLr[idx0]) == idx0
    modifies outletLr, flwdirLr, changd
    ensures DirectionSpec(g, s, idx0, old(outletLr[idx0]), effare, mainUs, extended, ok, dd, outlet, changed, w)
    ensures outletLr[..] == if ok then old(outletLr[..])[idx0 := outlet] else old(outletLr[..])
    ensures flwdirLr[..] == if ok then old(flwdirLr[..])[idx0 := dd] else old(flwdirLr[..])
    ensures changd[..] == if ok && changed then old(changd[..])[idx0 := 1] else old(changd[..])
  {
    var subidx0 := outletLr[idx0];
    ok, dd, outlet, changed, w := TileDirection(g, s, idx0, subidx0, effare, mainUs, extended, rank);
    if ok {
      if changed {
        changd[idx0] := 1;
      }
      outletLr[idx0] := outlet;
      flwdirLr[idx0] := dd;
    }
  }

  // ---------------------------------------------------------------------
  // The driver

  /** A low-resolution grid with cells forces the subgrid to be at least
      one tile wide. */
  lemma LrSizePositive(g: Grid, s: int)
    requires g.ncol > 0 && g.nrow > 0 && s > 0 && LrSize(g, s) > 0
    ensures g.ncol >= s
  {
  }

  /** `d8_scaling` up to its second loop: the low-resolution directions
      `flwdirLr`, outlets `outletLr` and change flags `changd` (1 for the
      tiles listed in `idxCheck`) as `DirectionsDone` states them, from the
      outlets `outlets1` and marks `effare` of the first loop
      (`MarksDone`). `ok` is false when the second loop raises; then `fail`
      is the outcome of the tile where it does. */
  lemma LrSizeNonneg(g: Grid, s: int)
    requires g.nrow > 0 && g.ncol > 0 && s > 0
    ensures LrSize(g, s) >= 0
  {
    Arith.DivNonneg(g.nrow, s);
    Arith.DivNonneg(g.ncol, s);
    Arith.RowMajorNonneg(g.nrow / s, 0, g.ncol / s);
  }

  /** A new array of `n` copies of `v`. */
  method Filled(n: nat, v: int) returns (a: array<int>)
    ensures fresh(a) && a.Length == n && forall i :: 0 <= i < n ==> a[i] == v
  {
    a := new int[n](_ => v);
  }

  method Upscale(g: Grid, s: int, effMask: seq<bool>, mainUs: seq<int>, extended: bool, ghost rank: seq<nat>)
    returns (ok: bool, flwdirLr: array<int>, outletLr: array<int>, changd: array<int>,
             idxCheck: seq<int>, upaCheck: seq<int>,
             ghost effare: seq<int>, ghost outlets1: seq<int>,
             ghost reps: seq<int>, ghost eas: seq<seq<int>>, ghost tms: seq<int>, ghost rcs: seq<seq<int>>,
             ghost chs: seq<bool>, ghost ws: seq<DirWitness>, ghost fail: (int, int, bool, DirWitness))
    requires Valid(g) && s > 0 && |effMask| == s * s && Ranked(g.next, rank) && PitFix.MainUpstream(g, mainUs)
    ensures fresh(flwdirLr) && fresh(outletLr) && fresh(changd)
    ensures flwdirLr.Length == outletLr.Length == changd.Length == LrSize(g, s)
    ensures LrSize(g, s) == 0 ==> ok && idxCheck == [] && upaCheck == []
    ensures LrSize(g, s) > 0 ==>
              && Walks.WalkInputs(g, s, effare)
              && MarksDone(g, s, effMask, outlets1, effare, reps, eas, tms, rcs)
              && DirectionsDone(g, s, effare, mainUs, extended, outlets1, flwdirLr[..], outletLr[..], changd[..],
                                ok, idxCheck, upaCheck, chs, ws, fail)
  {
    LrSizeNonneg(g, s);
    var sizeLr := LrSize(g, s);
    outletLr := Filled(sizeLr, -1);
    flwdirLr := Filled(sizeLr, 0);
    changd := Filled(sizeLr, 0);
    var effareArr := Filled(|g.next|, 0);
    ok, idxCheck, upaCheck := true, [], [];
    effare, outlets1, reps, eas, tms, rcs, chs, ws := effareArr[..], [], [], [], [], [], [], [];
    fail := (-1, -1, false, DirWitness(-1, -1, -1, [], -1, 0, [], []));
    if sizeLr == 0 {
      return;
    }
    LrSizePositive(g, s);
    Tiles.LrNcolPositive(g.ncol, s);
    // loop 1, then loop 2
    reps, eas, tms, rcs := MarkOutlets(g, s, effMask, outletLr, effareArr, rank);
    effare, outlets1 := effareArr[..], outletLr[..];
    ok, idxCheck, upaCheck, chs, ws, fail :=
      AssignDirections(g, s, effareArr[..], mainUs, extended, outletLr, flwdirLr, changd, rank);
  }
}
