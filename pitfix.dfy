/** `_fix_pit_outlets`: the repair d8_scaling applies when the walk of `_dd`
    from an outlet ends in a pit (or at the edge of the 3 by 3 window) of
    another tile without meeting any marked cell. */
module PitFix {
  import opened FlowGrid
  import D8
  import Tiles
  import Walks

  /** `upa_ds / upa < 2` on exact quotients. */
  predicate RatioBelowTwo(upaDs: int, upa: int)
    requires upa != 0
  {
    if upa > 0 then upaDs < 2 * upa else upaDs > 2 * upa
  }

  /** The walk from the outlet stays on the main river at step `m` of `path`:
      it has not reached the pit and the upstream area less than doubles. */
  ghost predicate MainStep(g: Grid, path: seq<int>, subidxPit: int, m: int)
    requires Valid(g) && 1 <= m < |path|
    requires forall k :: 0 <= k < |path| ==> 0 <= path[k] < |g.next|
  {
    path[m] != subidxPit && g.upa[path[m - 1]] != 0 && RatioBelowTwo(g.upa[path[m]], g.upa[path[m - 1]])
  }

  /** The first entry of `us_main_indices` of each cell, the main upstream
      cell, or `-1` when there is none: a cell that drains into it and is not
      the cell itself. */
  ghost predicate MainUpstream(g: Grid, mainUs: seq<int>) {
    && |mainUs| == |g.next|
    && forall c :: 0 <= c < |mainUs| ==>
         mainUs[c] == -1 || (0 <= mainUs[c] < |g.next| && g.next[mainUs[c]] == c && mainUs[c] != c)
  }

  /** `up` climbs the main upstream cells. */
  ghost predicate UpChain(g: Grid, mainUs: seq<int>, up: seq<int>)
    requires MainUpstream(g, mainUs)
  {
    && |up| >= 1
    && (forall k :: 0 <= k < |up| ==> 0 <= up[k] < |g.next|)
    && (forall k :: 0 <= k < |up| - 1 ==> mainUs[up[k]] == up[k + 1])
  }

  /** The upstream climb goes on through `c`: its tile is in the window
      around `idx0` and it is not an outlet of another tile. */
  ghost predicate ClimbsThrough(g: Grid, s: int, effare: seq<int>, idx0: int, c: int)
    requires Walks.WalkInputs(g, s, effare) && 0 <= c < |g.next|
  {
    && Walks.InWindow(idx0, Tile(g, s, c), LrNcol(g, s))
    && !(effare[c] == 3 && Tile(g, s, c) != idx0)
  }

  /** What `_fix_pit_outlets(idx0, subidx0, subidxPit)` returns, where
      `path` is the downstream path from the outlet `subidx0` to
      `subidxPit`. `ok` is false when the tile of `subidxPit` is `idx0`
      itself, where the source's assertion fails, and when the area ratio
      divides by a zero upstream area. Otherwise the walk from `subidx0`
      stops at the pit or at the first cell `path[stop]` whose upstream area
      is at least twice that of the cell before it. If it reached the pit,
      the pit's code and the pit itself are returned; otherwise the
      direction to the pit's tile, or, when climbing the main upstream cells
      from `path[stop]` (the cells `up`) meets an outlet `us` of another tile
      in the window first, the direction to that outlet's tile, with the
      outlet left at `subidx0`. The climb stops at the first cell of `up`
      whose main upstream cell `us` is missing, lies outside the window, or
      is such an outlet. */
  ghost predicate FixPitOutcome(g: Grid, s: int, idx0: int, subidx0: int, subidxPit: int, effare: seq<int>,
                                mainUs: seq<int>, path: seq<int>,
                                ok: bool, dd: int, subidxOut: int, stop: nat, up: seq<int>)
    requires Walks.WalkInputs(g, s, effare) && MainUpstream(g, mainUs)
    requires IsDsPath(g.next, path) && path[0] == subidx0 && path[|path| - 1] == subidxPit
  {
    Tiles.LrNcolPositive(g.ncol, s);
    && (Tile(g, s, subidxPit) == idx0 ==> !ok)
    && (Tile(g, s, subidxPit) != idx0 ==>
          && 1 <= stop < |path|
          && (forall m :: 1 <= m < stop ==> MainStep(g, path, subidxPit, m))
          && (ok <==> g.upa[path[stop - 1]] != 0))
    && (ok ==> path[stop] == subidxPit || !RatioBelowTwo(g.upa[path[stop]], g.upa[path[stop - 1]]))
    && (ok && RatioBelowTwo(g.upa[path[stop]], g.upa[path[stop - 1]]) ==>
          path[stop] == subidxPit && dd == g.flwdir[subidxPit] && subidxOut == subidxPit)
    && (ok && !RatioBelowTwo(g.upa[path[stop]], g.upa[path[stop - 1]]) ==>
          && subidxOut == subidx0
          && UpChain(g, mainUs, up) && up[0] == path[stop]
          && (forall k :: 1 <= k < |up| ==> ClimbsThrough(g, s, effare, idx0, up[k]))
          && var us := mainUs[up[|up| - 1]];
             && (|| us == -1
                 || !Walks.InWindow(idx0, Tile(g, s, us), LrNcol(g, s))
                 || (effare[us] == 3 && Tile(g, s, us) != idx0))
             && if us != -1 && Walks.InWindow(idx0, Tile(g, s, us), LrNcol(g, s))
                && effare[us] == 3 && Tile(g, s, us) != idx0
             then dd == D8.IdxToDd(idx0, Tile(g, s, us), LrNcol(g, s))
             else dd == D8.IdxToDd(idx0, Tile(g, s, subidxPit), LrNcol(g, s)))
  }

  /** `_fix_pit_outlets`: the walk down the main river, then the climb up
      the main upstream cells. */
  method FixPitOutlets(g: Grid, s: int, idx0: int, subidx0: int, subidxPit: int, effare: seq<int>,
                       mainUs: seq<int>, ghost path: seq<int>, ghost rank: seq<nat>)
    returns (ok: bool, dd: int, subidxOut: int, ghost stop: nat, ghost up: seq<int>)
    requires Walks.WalkInputs(g, s, effare) && Ranked(g.next, rank) && MainUpstream(g, mainUs)
    requires IsDsPath(g.next, path) && path[0] == subidx0 && path[|path| - 1] == subidxPit
    requires |path| >= 2 || Tile(g, s, subidxPit) == idx0
    ensures FixPitOutcome(g, s, idx0, subidx0, subidxPit, effare, mainUs, path, ok, dd, subidxOut, stop, up)
  {
    var ncol := g.ncol / s;
    Tiles.LrNcolPositive(g.ncol, s);
    var idxPit := Tile(g, s, subidxPit);
    stop, up := 0, [];
    if idx0 == idxPit {
      ok, dd, subidxOut := false, D8.Nodata, subidx0;
      return;
    }
    ok := true;
    subidxOut := subidx0;
    dd := D8.IdxToDd(idx0, idxPit, ncol);
    D8.IdxToDdIsPit(idx0, idxPit, ncol);
    // walk down from `subidx0` while the upstream area less than doubles
    var main := true;
    var subidx := subidx0;
    var upa := g.upa[subidx];
    var subidxDs := -1;
    ghost var k := 0;
    while true
      invariant 0 <= k < |path| - 1 && subidx == path[k] && upa == g.upa[subidx]
      invariant forall m :: 1 <= m <= k ==> MainStep(g, path, subidxPit, m)
      decreases |path| - k
    {
      subidxDs := g.next[subidx];
      assert subidxDs == path[k + 1];
      var upaDs := g.upa[subidxDs];
      if upa == 0 {
        // the ratio divides by zero
        ok, stop := false, k + 1;
        return;
      }
      main := RatioBelowTwo(upaDs, upa);
      if subidxDs == subidxPit || !main {
        break;
      }
      subidx := subidxDs;
      upa := upaDs;
      k := k + 1;
    }
    stop := k + 1;
    if main {
      // on the main river: move the outlet to the pit
      dd := g.flwdir[subidxPit];
      subidxOut := subidxPit;
    } else {
      // try to connect to a main upstream outlet
      subidx := subidxDs;
      up := [subidx];
      while true
        invariant 0 <= subidx < |g.next| && UpChain(g, mainUs, up) && up[0] == path[stop]
        invariant subidx == up[|up| - 1]
        invariant forall k :: 1 <= k < |up| ==> ClimbsThrough(g, s, effare, idx0, up[k])
        invariant dd == D8.IdxToDd(idx0, idxPit, ncol)
        decreases |g.next| - rank[subidx]
      {
        var subidxUsMain := mainUs[subidx];
        if subidxUsMain == -1 {
          // the climb has no main upstream cell left
          break;
        }
        var idxUs := Tile(g, s, subidxUsMain);
        if !Walks.InWindow(idx0, idxUs, ncol) {
          break;
        } else if effare[subidxUsMain] == 3 && idxUs != idx0 {
          dd := D8.IdxToDd(idx0, idxUs, ncol);
          D8.IdxToDdIsPit(idx0, idxUs, ncol);
          break;
        }
        assert rank[subidx] < rank[subidxUsMain];
        subidx := subidxUsMain;
        up := up + [subidx];
      }
    }
  }

  /** When the repair returns a pit code, the outlet moves to a cell that is
      a pit of the subgrid (the assertion the source leaves commented out
      after the call): a direction between two different tiles is never a
      pit code. */
  lemma FixPitKeepsPit(g: Grid, s: int, idx0: int, subidx0: int, subidxPit: int, effare: seq<int>,
                       mainUs: seq<int>, path: seq<int>,
                       ok: bool, dd: int, subidxOut: int, stop: nat, up: seq<int>)
    requires Walks.WalkInputs(g, s, effare) && MainUpstream(g, mainUs)
    requires IsDsPath(g.next, path) && path[0] == subidx0 && path[|path| - 1] == subidxPit
    requires FixPitOutcome(g, s, idx0, subidx0, subidxPit, effare, mainUs, path, ok, dd, subidxOut, stop, up)
    requires ok && D8.IsPit(dd)
    ensures subidxOut == subidxPit && D8.IsPit(g.flwdir[subidxPit])
  {
    var ncol := LrNcol(g, s);
    if !RatioBelowTwo(g.upa[path[stop]], g.upa[path[stop - 1]]) {
      var us := mainUs[up[|up| - 1]];
      if us != -1 && Walks.InWindow(idx0, Tile(g, s, us), ncol) && effare[us] == 3 && Tile(g, s, us) != idx0 {
        D8.IdxToDdIsPit(idx0, Tile(g, s, us), ncol);
      } else {
        D8.IdxToDdIsPit(idx0, Tile(g, s, subidxPit), ncol);
      }
      assert false;
    }
  }
}
