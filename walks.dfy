/** The downstream walks d8_scaling uses to find, for one low-resolution
    cell (tile), its representative cell, its outlet and its direction. All
    walks follow `next`; they terminate because `next` is ranked. */
module Walks {
  import opened FlowGrid
  import D8
  import Tiles

  function Abs(x: int): int { if x < 0 then -x else x }

  // ---------------------------------------------------------------------
  // _outlet

  /** `c` is where the flow leaves tile `idx0`: its downstream cell is
      outside the domain, `c` itself (a pit), or a cell of another tile. */
  ghost predicate LeavesTile(g: Grid, s: int, idx0: int, c: int)
    requires Valid(g) && s > 0 && 0 <= c < |g.next|
  {
    g.next[c] == -1 || g.next[c] == c || Tile(g, s, g.next[c]) != idx0
  }

  /** `cells` is the stream from `start` to the outlet of tile `idx0`:
      a downstream path whose cells after the first all lie in tile `idx0`
      and whose last cell is where the flow leaves the tile. */
  ghost predicate OutletTrace(g: Grid, s: int, idx0: int, start: int, cells: seq<int>)
    requires Valid(g) && s > 0
  {
    && IsDsPath(g.next, cells) && cells[0] == start
    && (forall k :: 1 <= k < |cells| ==> Tile(g, s, cells[k]) == idx0)
    && LeavesTile(g, s, idx0, cells[|cells| - 1])
  }

  /** `_outlet`: follows the flow from `subidx` to the last cell still in
      tile `idx0`; returns that outlet and the stream cells leading to it. */
  method Outlet(g: Grid, s: int, idx0: int, subidx: int, ghost rank: seq<nat>)
    returns (subidxOut: int, streamcells: seq<int>)
    requires Valid(g) && s > 0 && Ranked(g.next, rank)
    requires 0 <= subidx < |g.next|
    ensures OutletTrace(g, s, idx0, subidx, streamcells)
    ensures subidxOut == streamcells[|streamcells| - 1]
    ensures rank[subidxOut] <= rank[subidx]
  {
    subidxOut := -1;
    var idx := idx0;
    var cur := subidx;
    streamcells := [subidx];
    while true
      invariant 0 <= cur < |g.next| && idx == idx0
      invariant IsDsPath(g.next, streamcells) && streamcells[0] == subidx
      invariant cur == streamcells[|streamcells| - 1]
      invariant forall k :: 1 <= k < |streamcells| ==> Tile(g, s, streamcells[k]) == idx0
      invariant rank[cur] <= rank[subidx]
      decreases rank[cur]
    {
      var ds := g.next[cur];
      // the flow leaves the grid or stops at a pit
      if ds == -1 || ds == cur {
        if idx == idx0 {
          subidxOut := cur;
        }
        break;
      }
      var idxDs := Tile(g, s, ds);
      if idxDs == idx0 && idx == idx0 {
        DsPathSnoc(g.next, streamcells, ds);
        streamcells := streamcells + [ds];
      } else if idx == idx0 && idxDs != idx0 {
        subidxOut := cur;
        break;
      }
      idx := idxDs;
      cur := ds;
    }
  }

  /** Two outlet traces from the same cell are the same: the outlet and its
      stream are determined by the start cell. */
  lemma {:induction false} OutletTraceUnique(g: Grid, s: int, idx0: int, start: int, p: seq<int>, q: seq<int>)
    requires Valid(g) && s > 0
    requires OutletTrace(g, s, idx0, start, p) && OutletTrace(g, s, idx0, start, q)
    ensures p == q
    decreases |p|
  {
    OutletTraceMoves(g, s, idx0, start, p);
    OutletTraceMoves(g, s, idx0, start, q);
    if |p| > 1 {
      assert p[1] == q[1];
      assert OutletTrace(g, s, idx0, p[1], p[1..]);
      assert OutletTrace(g, s, idx0, p[1], q[1..]);
      OutletTraceUnique(g, s, idx0, p[1], p[1..], q[1..]);
      assert p == [p[0]] + p[1..] && q == [q[0]] + q[1..];
    }
  }

  /** An outlet trace goes on past its first cell exactly when the flow from
      there moves to another cell of the same tile. */
  lemma OutletTraceMoves(g: Grid, s: int, idx0: int, start: int, p: seq<int>)
    requires Valid(g) && s > 0 && OutletTrace(g, s, idx0, start, p)
    ensures |p| > 1 <==> (g.next[start] != -1 && g.next[start] != start && Tile(g, s, g.next[start]) == idx0)
  {
    if |p| > 1 {
      assert g.next[p[0]] == p[1];
    }
  }

  // ---------------------------------------------------------------------
  // _dd

  /** The flat-index test for "tile `idxDs` is among the 3 by 3 tiles around
      `idx0`" on a low-resolution grid `ncol` tiles wide. */
  predicate InWindow(idx0: int, idxDs: int, ncol: int) {
    !(Abs(idxDs - idx0) > 1 && Abs(idxDs - idx0 - ncol) > 1 && Abs(idxDs - idx0 + ncol) > 1)
  }

  /** The walk's view of the low-resolution grid and the effare marks
      (0 none, 1 effective area, 2 stream to outlet, 3 outlet). */
  ghost predicate WalkInputs(g: Grid, s: int, effare: seq<int>) {
    Valid(g) && s > 0 && g.ncol >= s && LrNcol(g, s) >= 1 && |effare| == |g.next|
  }

  /** Cell `c` lies in a neighbouring tile of `idx0` and is marked. */
  ghost predicate IsHit(g: Grid, s: int, effare: seq<int>, idx0: int, c: int)
    requires WalkInputs(g, s, effare) && 0 <= c < |g.next|
  {
    Tile(g, s, c) != idx0 && InWindow(idx0, Tile(g, s, c), LrNcol(g, s)) && effare[c] >= 1
  }

  /** A marked cell ends the walk when not extended, or when it is on an
      outlet stream (2) or an outlet (3). */
  predicate Stops(effare: seq<int>, c: int, extended: bool)
    requires 0 <= c < |effare|
  {
    !extended || effare[c] >= 2
  }

  /** The walk steps onto `c` and carries on. */
  ghost predicate Passes(g: Grid, s: int, effare: seq<int>, idx0: int, extended: bool, c: int)
    requires WalkInputs(g, s, effare) && 0 <= c < |g.next|
  {
    Tile(g, s, c) == idx0
    || (InWindow(idx0, Tile(g, s, c), LrNcol(g, s)) && !(effare[c] >= 1 && Stops(effare, c, extended)))
  }

  /** Direction from `idx0` to the tile of the last hit among `cells`, or the
      pit code when there is none. */
  ghost function LastHitDir(g: Grid, s: int, effare: seq<int>, idx0: int, cells: seq<int>): int
    requires WalkInputs(g, s, effare)
    requires forall k :: 0 <= k < |cells| ==> 0 <= cells[k] < |g.next|
    decreases |cells|
  {
    if |cells| == 0 then D8.PitCode
    else
      var c := cells[|cells| - 1];
      if IsHit(g, s, effare, idx0, c) then D8.IdxToDd(idx0, Tile(g, s, c), LrNcol(g, s))
      else LastHitDir(g, s, effare, idx0, cells[..|cells| - 1])
  }

  /** The outcome of `_dd` from `start`: `path` is the downstream path from
      `start` to the last cell the walk stepped onto, every cell strictly
      inside it was passed, and the walk ended in one of four ways:
      on a marked cell of a neighbouring tile that stops it; at the edge of
      the domain; at a pit (the direction is the pit's own code); or before
      a step out of the 3 by 3 window. Except at a pit, the direction is
      that of the last marked neighbouring tile met, or the pit code. */
  ghost predicate DdTrace(g: Grid, s: int, effare: seq<int>, idx0: int, start: int, extended: bool,
                          dd: int, subidxDs: int, idxDs: int, path: seq<int>)
    requires WalkInputs(g, s, effare)
  {
    && IsDsPath(g.next, path) && path[0] == start
    && (forall j :: 1 <= j < |path| - 1 ==> Passes(g, s, effare, idx0, extended, path[j]))
    && var last := path[|path| - 1];
       var ds := g.next[last];
       var idxLast := if |path| == 1 then -1 else Tile(g, s, last);
       if |path| >= 2 && IsHit(g, s, effare, idx0, last) && Stops(effare, last, extended) then
         subidxDs == last && idxDs == idxLast && dd == LastHitDir(g, s, effare, idx0, path[1..])
       else
         && (|path| == 1 || Passes(g, s, effare, idx0, extended, last))
         && if ds == -1 then
              subidxDs == -1 && idxDs == idxLast && dd == LastHitDir(g, s, effare, idx0, path[1..])
            else if ds == last then
              subidxDs == last && idxDs == idxLast && dd == g.flwdir[last]
            else
              && !InWindow(idx0, Tile(g, s, ds), LrNcol(g, s))
              && subidxDs == last && idxDs == Tile(g, s, last)
              && dd == LastHitDir(g, s, effare, idx0, path[1..])
  }

  /** `_dd`: the low-resolution direction of tile `idx0`, found by following
      its outlet `subidx` downstream (see `DdTrace`). */
  method Dd(g: Grid, s: int, idx0: int, subidx: int, effare: seq<int>, extended: bool, ghost rank: seq<nat>)
    returns (dd: int, subidxDs: int, idxDs: int, ghost path: seq<int>)
    requires WalkInputs(g, s, effare) && Ranked(g.next, rank)
    requires 0 <= subidx < |g.next|
    ensures DdTrace(g, s, effare, idx0, subidx, extended, dd, subidxDs, idxDs, path)
  {
    var ncol := g.ncol / s;
    dd := D8.PitCode;
    idxDs := -1;
    var idxDs0 := -1;
    var cur := subidx;
    path := [subidx];
    while true
      invariant 0 <= cur < |g.next| && ncol == LrNcol(g, s) && ncol >= 1
      invariant DdSoFar(g, s, effare, idx0, subidx, extended, dd, idxDs, path)
      invariant cur == path[|path| - 1]
      invariant idxDs0 != -1 ==> dd == D8.IdxToDd(idx0, idxDs0, ncol)
      decreases rank[cur]
    {
      subidxDs := g.next[cur];
      if subidxDs == -1 {
        // the flow leaves the grid
        DdEnd(g, s, effare, idx0, subidx, extended, dd, subidxDs, idxDs, path);
        break;
      } else if subidxDs == cur {
        // a pit: its own code is the direction
        dd := g.flwdir[cur];
        DdEnd(g, s, effare, idx0, subidx, extended, dd, subidxDs, idxDs, path);
        break;
      }
      var idxPrev := idxDs;
      idxDs := Tile(g, s, subidxDs);
      Tiles.SubidxToIdxNonneg(subidxDs, g.ncol, s);
      if idxDs == idx0 {
        // still in tile `idx0`: walk on
      } else if Abs(idxDs - idx0) > 1 && Abs(idxDs - idx0 - ncol) > 1 && Abs(idxDs - idx0 + ncol) > 1 {
        // beyond the 3 by 3 window: stop at `cur`, the last cell inside it
        var out := subidxDs;
        subidxDs := cur;
        idxDs := Tile(g, s, subidxDs);
        DdEnd(g, s, effare, idx0, subidx, extended, dd, subidxDs, idxDs, path);
        break;
      } else {
        // in a neighbouring tile: a marked cell updates the direction
        var flag := effare[subidxDs];
        if flag >= 1 {
          assert IsHit(g, s, effare, idx0, subidxDs);
          if idxDs0 != idxDs {
            dd := D8.IdxToDd(idx0, idxDs, ncol);
            idxDs0 := idxDs;
          }
          assert dd == D8.IdxToDd(idx0, idxDs, ncol);
          if !extended || flag >= 2 {
            DdStopAtHit(g, s, effare, idx0, subidx, extended, path, subidxDs);
            path := path + [subidxDs];
            break;
          }
        }
      }
      DdStep(g, s, effare, idx0, subidx, extended, idxPrev, path, subidxDs);
      assert dd == LastHitDir(g, s, effare, idx0, (path + [subidxDs])[1..]);
      path := path + [subidxDs];
      cur := subidxDs;
    }
  }

  /** The part of `DdTrace` that holds while the walk goes on. */
  ghost predicate DdSoFar(g: Grid, s: int, effare: seq<int>, idx0: int, start: int, extended: bool,
                          dd: int, idxDs: int, path: seq<int>)
    requires WalkInputs(g, s, effare)
  {
    && IsDsPath(g.next, path) && path[0] == start
    && (forall j :: 1 <= j < |path| ==> Passes(g, s, effare, idx0, extended, path[j]))
    && dd == LastHitDir(g, s, effare, idx0, path[1..])
    && idxDs == if |path| == 1 then -1 else Tile(g, s, path[|path| - 1])
  }

  /** A loop step of `_dd` onto a cell it passes. */
  lemma DdStep(g: Grid, s: int, effare: seq<int>, idx0: int, start: int, extended: bool,
               idxDs: int, path: seq<int>, c: int)
    requires WalkInputs(g, s, effare) && IsDsPath(g.next, path)
    requires DdSoFar(g, s, effare, idx0, start, extended, LastHitDir(g, s, effare, idx0, path[1..]), idxDs, path)
    requires 0 <= c < |g.next| && g.next[path[|path| - 1]] == c && c != path[|path| - 1]
    requires Passes(g, s, effare, idx0, extended, c)
    ensures DdSoFar(g, s, effare, idx0, start, extended, LastHitDir(g, s, effare, idx0, (path + [c])[1..]),
                    Tile(g, s, c), path + [c])
    ensures LastHitDir(g, s, effare, idx0, (path + [c])[1..])
         == if IsHit(g, s, effare, idx0, c) then D8.IdxToDd(idx0, Tile(g, s, c), LrNcol(g, s))
            else LastHitDir(g, s, effare, idx0, path[1..])
  {
    assert (path + [c])[1..] == path[1..] + [c];
    LastHitDirSnoc(g, s, effare, idx0, path[1..], c);
  }

  /** The walk of `_dd` ends on a marked cell `c` of a neighbouring tile. */
  lemma DdStopAtHit(g: Grid, s: int, effare: seq<int>, idx0: int, start: int, extended: bool,
                    path: seq<int>, c: int)
    requires WalkInputs(g, s, effare) && IsDsPath(g.next, path)
    requires DdSoFar(g, s, effare, idx0, start, extended, LastHitDir(g, s, effare, idx0, path[1..]),
                     if |path| == 1 then -1 else Tile(g, s, path[|path| - 1]), path)
    requires 0 <= c < |g.next| && g.next[path[|path| - 1]] == c && c != path[|path| - 1]
    requires IsHit(g, s, effare, idx0, c) && Stops(effare, c, extended)
    ensures DdTrace(g, s, effare, idx0, start, extended, D8.IdxToDd(idx0, Tile(g, s, c), LrNcol(g, s)),
                    c, Tile(g, s, c), path + [c])
  {
    assert (path + [c])[1..] == path[1..] + [c];
    LastHitDirSnoc(g, s, effare, idx0, path[1..], c);
  }

  /** The walk of `_dd` ends before stepping off its last cell. */
  lemma DdEnd(g: Grid, s: int, effare: seq<int>, idx0: int, start: int, extended: bool,
              dd: int, subidxDs: int, idxDs: int, path: seq<int>)
    requires WalkInputs(g, s, effare) && IsDsPath(g.next, path)
    requires var last := path[|path| - 1];
             && DdSoFar(g, s, effare, idx0, start, extended, LastHitDir(g, s, effare, idx0, path[1..]),
                        if |path| == 1 then -1 else Tile(g, s, last), path)
             && var ds := g.next[last];
                if ds == -1 then
                  subidxDs == -1 && dd == LastHitDir(g, s, effare, idx0, path[1..])
                  && idxDs == if |path| == 1 then -1 else Tile(g, s, last)
                else if ds == last then
                  subidxDs == last && dd == g.flwdir[last]
                  && idxDs == if |path| == 1 then -1 else Tile(g, s, last)
                else
                  && !InWindow(idx0, Tile(g, s, ds), LrNcol(g, s))
                  && subidxDs == last && idxDs == Tile(g, s, last)
                  && dd == LastHitDir(g, s, effare, idx0, path[1..])
    ensures DdTrace(g, s, effare, idx0, start, extended, dd, subidxDs, idxDs, path)
  {
  }

  /** One more cell at the end of the walk. */
  lemma LastHitDirSnoc(g: Grid, s: int, effare: seq<int>, idx0: int, cells: seq<int>, c: int)
    requires WalkInputs(g, s, effare)
    requires forall k :: 0 <= k < |cells| ==> 0 <= cells[k] < |g.next|
    requires 0 <= c < |g.next|
    ensures LastHitDir(g, s, effare, idx0, cells + [c])
         == if IsHit(g, s, effare, idx0, c) then D8.IdxToDd(idx0, Tile(g, s, c), LrNcol(g, s))
            else LastHitDir(g, s, effare, idx0, cells)
  {
    assert (cells + [c])[..|cells|] == cells;
  }

  /** With no marked neighbouring cell among `cells`, the direction is the pit code. */
  lemma {:induction false} LastHitDirNoHit(g: Grid, s: int, effare: seq<int>, idx0: int, cells: seq<int>)
    requires WalkInputs(g, s, effare)
    requires forall k :: 0 <= k < |cells| ==> 0 <= cells[k] < |g.next|
    requires forall k :: 0 <= k < |cells| ==> !IsHit(g, s, effare, idx0, cells[k])
    ensures LastHitDir(g, s, effare, idx0, cells) == D8.PitCode
    decreases |cells|
  {
    if |cells| > 0 {
      var init := cells[..|cells| - 1];
      assert forall k :: 0 <= k < |init| ==> init[k] == cells[k];
      LastHitDirNoHit(g, s, effare, idx0, init);
    }
  }

  /** The direction is that of the tile of the last marked neighbouring cell. */
  lemma {:induction false} LastHitDirAt(g: Grid, s: int, effare: seq<int>, idx0: int, cells: seq<int>, k: int)
    requires WalkInputs(g, s, effare)
    requires forall j :: 0 <= j < |cells| ==> 0 <= cells[j] < |g.next|
    requires 0 <= k < |cells| && IsHit(g, s, effare, idx0, cells[k])
    requires forall j :: k < j < |cells| ==> !IsHit(g, s, effare, idx0, cells[j])
    ensures LastHitDir(g, s, effare, idx0, cells) == D8.IdxToDd(idx0, Tile(g, s, cells[k]), LrNcol(g, s))
    decreases |cells|
  {
    if k < |cells| - 1 {
      var init := cells[..|cells| - 1];
      assert forall j :: 0 <= j < |init| ==> init[j] == cells[j];
      LastHitDirAt(g, s, effare, idx0, init, k);
    }
  }

  /** `_dd` leaving the domain before any marked neighbouring cell returns the
      pit code `_pits[0]`. */
  lemma DdOutsideDomain(g: Grid, s: int, effare: seq<int>, idx0: int, start: int, extended: bool,
                        dd: int, subidxDs: int, idxDs: int, path: seq<int>)
    requires WalkInputs(g, s, effare)
    requires DdTrace(g, s, effare, idx0, start, extended, dd, subidxDs, idxDs, path)
    requires subidxDs == -1
    requires forall k :: 1 <= k < |path| ==> !IsHit(g, s, effare, idx0, path[k])
    ensures dd == D8.PitCode && g.next[path[|path| - 1]] == -1
  {
    LastHitDirNoHit(g, s, effare, idx0, path[1..]);
  }

  /** `_dd` reaching a pit without being stopped by a marked cell first returns
      the pit's own code. */
  lemma DdAtPit(g: Grid, s: int, effare: seq<int>, idx0: int, start: int, extended: bool,
                dd: int, subidxDs: int, idxDs: int, path: seq<int>)
    requires WalkInputs(g, s, effare)
    requires DdTrace(g, s, effare, idx0, start, extended, dd, subidxDs, idxDs, path)
    requires 0 <= subidxDs < |g.next| && g.next[subidxDs] == subidxDs
    requires |path| == 1 || !IsHit(g, s, effare, idx0, subidxDs) || !Stops(effare, subidxDs, extended)
    ensures subidxDs == path[|path| - 1]
    ensures dd == g.flwdir[subidxDs] && D8.IsPit(dd)
  {
  }

  /** Without `extended`, `_dd` stops at the first marked cell of a
      neighbouring tile, and the direction points at that cell's tile; a walk
      that meets none ends with a pit code. */
  lemma DdFirstHit(g: Grid, s: int, effare: seq<int>, idx0: int, start: int,
                   dd: int, subidxDs: int, idxDs: int, path: seq<int>)
    requires WalkInputs(g, s, effare)
    requires DdTrace(g, s, effare, idx0, start, false, dd, subidxDs, idxDs, path)
    ensures forall j :: 1 <= j < |path| - 1 ==> !IsHit(g, s, effare, idx0, path[j])
    ensures |path| >= 2 && IsHit(g, s, effare, idx0, path[|path| - 1]) ==>
              subidxDs == path[|path| - 1] && idxDs == Tile(g, s, subidxDs)
              && dd == D8.IdxToDd(idx0, idxDs, LrNcol(g, s))
    ensures !(|path| >= 2 && IsHit(g, s, effare, idx0, path[|path| - 1])) ==> D8.IsPit(dd)
  {
    var last := path[|path| - 1];
    assert forall j :: 1 <= j < |path| - 1 ==> !IsHit(g, s, effare, idx0, path[j]) by {
      forall j | 1 <= j < |path| - 1
        ensures !IsHit(g, s, effare, idx0, path[j])
      {
        assert Passes(g, s, effare, idx0, false, path[j]);
      }
    }
    if |path| >= 2 && IsHit(g, s, effare, idx0, last) {
      LastHitDirAt(g, s, effare, idx0, path[1..], |path| - 2);
    } else {
      assert forall k :: 0 <= k < |path[1..]| ==> !IsHit(g, s, effare, idx0, path[1..][k]) by {
        forall k | 0 <= k < |path[1..]|
          ensures !IsHit(g, s, effare, idx0, path[1..][k])
        {
          assert path[1..][k] == path[k + 1];
          if k + 1 < |path| - 1 {
            assert Passes(g, s, effare, idx0, false, path[k + 1]);
          }
        }
      }
      LastHitDirNoHit(g, s, effare, idx0, path[1..]);
    }
  }

  // ---------------------------------------------------------------------
  // _force_ds_outlet

  /** The move from `idx0` to tile `idxDs` has a proper D8 code: one of the
      eight neighbour codes (neither nodata nor a pit code). */
  predicate ValidDir(idx0: int, idxDs: int, ncol: int)
    requires ncol > 0
  {
    D8.IdxToDd(idx0, idxDs, ncol) != D8.Nodata && !D8.IsPit(D8.IdxToDd(idx0, idxDs, ncol))
  }

  /** Number of tiles in `tiles` that `idx0` has a proper direction to. */
  function CountValid(idx0: int, tiles: seq<int>, ncol: int): nat
    requires ncol > 0
  {
    if |tiles| == 0 then 0
    else CountValid(idx0, tiles[..|tiles| - 1], ncol) + (if ValidDir(idx0, tiles[|tiles| - 1], ncol) then 1 else 0)
  }

  lemma CountValidSnoc(idx0: int, tiles: seq<int>, t: int, ncol: int)
    requires ncol > 0
    ensures CountValid(idx0, tiles + [t], ncol) == CountValid(idx0, tiles, ncol) + (if ValidDir(idx0, t, ncol) then 1 else 0)
    ensures CountValid(idx0, tiles, ncol) <= |tiles|
  {
    assert (tiles + [t])[..|tiles|] == tiles;
    CountValidBound(idx0, tiles, ncol);
  }

  lemma {:induction false} CountValidBound(idx0: int, tiles: seq<int>, ncol: int)
    requires ncol > 0
    ensures CountValid(idx0, tiles, ncol) <= |tiles|
    decreases |tiles|
  {
    if |tiles| > 0 {
      CountValidBound(idx0, tiles[..|tiles| - 1], ncol);
    }
  }

  /** A moving path is also a walk. */
  lemma PathIsWalk(next: seq<int>, p: seq<int>)
    requires IsDsPath(next, p)
    ensures IsDsWalk(next, p)
  {
    forall k | 0 <= k < |p| - 1
      ensures p[k + 1] == p[k] || p[k + 1] == next[p[k]]
    {
      assert next[p[k]] == p[k + 1];
    }
  }

  /** A path that starts at the end of a walk, or one step downstream of it,
      extends the walk. */
  lemma WalkAppend(next: seq<int>, p: seq<int>, q: seq<int>)
    requires IsDsWalk(next, p) && IsDsPath(next, q)
    requires q[0] == p[|p| - 1] || q[0] == next[p[|p| - 1]]
    ensures IsDsWalk(next, p + q) && (p + q)[0] == p[0] && (p + q)[|p + q| - 1] == q[|q| - 1]
    ensures (p + q)[..|p|] == p
  {
    var r := p + q;
    forall k | 0 <= k < |r| - 1
      ensures r[k + 1] == r[k] || r[k + 1] == next[r[k]]
    {
      if k < |p| - 1 {
        assert r[k] == p[k] && r[k + 1] == p[k + 1];
      } else if k == |p| - 1 {
        assert r[k] == p[|p| - 1] && r[k + 1] == q[0];
      } else {
        assert r[k] == q[k - |p|] && r[k + 1] == q[k - |p| + 1];
        assert next[q[k - |p|]] == q[k - |p| + 1];
      }
    }
  }

  /** A path that starts at the last cell of a walk extends it. */
  lemma WalkJoin(next: seq<int>, p: seq<int>, q: seq<int>)
    requires IsDsWalk(next, p) && IsDsPath(next, q) && q[0] == p[|p| - 1]
    ensures IsDsWalk(next, p + q) && |p| < |p + q| && (p + q)[..|p|] == p
  {
    WalkAppend(next, p, q);
  }

  /** A path that starts one step downstream of the end of another path
      extends it. */
  lemma PathAppend(next: seq<int>, p: seq<int>, q: seq<int>)
    requires IsDsPath(next, p) && IsDsPath(next, q)
    requires q[0] == next[p[|p| - 1]] && q[0] != p[|p| - 1]
    ensures IsDsPath(next, p + q) && (p + q)[0] == p[0] && (p + q)[|p + q| - 1] == q[|q| - 1]
  {
    var r := p + q;
    forall k | 0 <= k < |r| - 1
      ensures next[r[k]] == r[k + 1] && r[k + 1] != r[k]
    {
      if k < |p| - 1 {
        assert r[k] == p[k] && r[k + 1] == p[k + 1];
      } else if k == |p| - 1 {
        assert r[k] == p[|p| - 1] && r[k + 1] == q[0];
      } else {
        assert r[k] == q[k - |p|] && r[k + 1] == q[k - |p| + 1];
      }
    }
  }

  /** The first phase of `_force_ds_outlet`: walk down from `subidx0` until a
      cell with a nonzero `effare` mark is entered (`ea` is its mark) or the
      flow ends (`ea` is 0). */
  method ToEffectiveArea(g: Grid, subidx0: int, effare: seq<int>, ghost rank: seq<nat>)
    returns (subidx: int, ea: int, path: seq<int>)
    requires Valid(g) && |effare| == |g.next| && Ranked(g.next, rank)
    requires 0 <= subidx0 < |g.next|
    ensures IsDsPath(g.next, path) && path[0] == subidx0 && subidx == path[|path| - 1]
    ensures forall k :: 1 <= k < |path| - 1 ==> effare[path[k]] == 0
    ensures ea == if |path| == 1 then 0 else effare[subidx]
    ensures ea == 0 ==> g.next[subidx] == -1 || g.next[subidx] == subidx
  {
    subidx := subidx0;
    path := [subidx];
    ea := 0;
    while ea == 0
      invariant 0 <= subidx < |g.next| && IsDsPath(g.next, path) && path[0] == subidx0
      invariant subidx == path[|path| - 1]
      invariant forall k :: 1 <= k < |path| - 1 ==> effare[path[k]] == 0
      invariant ea == if |path| == 1 then 0 else effare[subidx]
      decreases rank[subidx]
    {
      var ds := g.next[subidx];
      if ds == -1 || ds == subidx {
        break;
      }
      ea := effare[ds];
      DsPathSnoc(g.next, path, ds);
      subidx := ds;
      path := path + [subidx];
    }
  }

  /** The segments joined end to end. */
  function Concat(segs: seq<seq<int>>): seq<int> {
    if |segs| == 0 then [] else Concat(segs[..|segs| - 1]) + segs[|segs| - 1]
  }

  lemma ConcatSnoc(segs: seq<seq<int>>, x: seq<int>)
    ensures Concat(segs + [x]) == Concat(segs) + x
  {
    assert (segs + [x])[..|segs|] == segs;
  }

  /** `seg` is the stream from its first cell to the outlet of that cell's
      tile `t`. */
  ghost predicate StreamOf(g: Grid, s: int, t: int, seg: seq<int>)
    requires Valid(g) && s > 0
  {
    |seg| >= 1 && t == Tile(g, s, seg[0]) && OutletTrace(g, s, t, seg[0], seg)
  }

  /** `segs` are the outlet streams the second phase of `_force_ds_outlet`
      walks from `start`: segment `k` is the stream from its first cell to
      the outlet of that cell's tile `tiles[k]`, and each further segment
      starts at the cell downstream of the previous outlet. */
  ghost predicate OutletChain(g: Grid, s: int, start: int, segs: seq<seq<int>>, tiles: seq<int>)
    requires Valid(g) && s > 0
  {
    && |segs| == |tiles|
    && (forall k :: 0 <= k < |segs| ==> |segs[k]| >= 1 && 0 <= segs[k][|segs[k]| - 1] < |g.next|)
    && (forall k {:trigger StreamOf(g, s, tiles[k], segs[k])} :: 0 <= k < |segs| ==> StreamOf(g, s, tiles[k], segs[k]))
    && (|segs| > 0 ==> segs[0][0] == start)
    && (forall k :: 0 <= k < |segs| - 1 ==> LinkedAt(g.next, segs, k))
  }

  /** Segment `k + 1` starts at the cell downstream of the last cell of
      segment `k`. */
  ghost predicate LinkedAt(next: seq<int>, segs: seq<seq<int>>, k: int) {
    && 0 <= k < |segs| - 1 && |segs[k]| >= 1 && |segs[k + 1]| >= 1
    && 0 <= segs[k][|segs[k]| - 1] < |next|
    && segs[k + 1][0] == next[segs[k][|segs[k]| - 1]]
  }

  /** The `k`-th tile visited is the one returned: it has a proper direction
      from `idx0` and `n` is the count `i` so far plus the proper tiles
      before it. */
  predicate Found(idx0: int, i: int, n: int, tiles: seq<int>, k: int, ncol: int)
    requires ncol > 0 && 0 <= k < |tiles|
  {
    ValidDir(idx0, tiles[k], ncol) && i + CountValid(idx0, tiles[..k], ncol) == n
  }

  /** The second phase goes on after its `k`-th segment: that tile is not
      the one returned, fewer than three tiles so far lack a proper
      direction, and the flow moves on from the outlet. */
  ghost predicate Continues(g: Grid, s: int, idx0: int, i: int, n: int, start: int,
                           segs: seq<seq<int>>, tiles: seq<int>, k: int)
    requires Valid(g) && s > 0 && LrNcol(g, s) >= 1 && OutletChain(g, s, start, segs, tiles) && 0 <= k < |segs|
  {
    var last := segs[k][|segs[k]| - 1];
    && !Found(idx0, i, n, tiles, k, LrNcol(g, s))
    && (k + 1) - CountValid(idx0, tiles[..k + 1], LrNcol(g, s)) < 3
    && g.next[last] != -1 && g.next[last] != last
  }

  /** The outlet streams `segs` walked from `start`, at least one, where the
      walk went on after every one but the last. */
  ghost predicate Visited(g: Grid, s: int, idx0: int, i: int, n: int, start: int, segs: seq<seq<int>>, tiles: seq<int>)
    requires Valid(g) && s > 0 && LrNcol(g, s) >= 1
  {
    && OutletChain(g, s, start, segs, tiles) && |segs| >= 1
    && (forall k :: 0 <= k < |segs| - 1 ==> Continues(g, s, idx0, i, n, start, segs, tiles, k))
  }

  /** The state at the head of the loop of the second phase: no stream yet
      and `cur` is `start`, or the streams walked so far, the last of which
      is not `Found`, and `cur` is the cell below the last outlet. */
  ghost predicate VisitSoFar(g: Grid, s: int, idx0: int, i: int, n: int, start: int,
                             segs: seq<seq<int>>, tiles: seq<int>, cur: int)
    requires Valid(g) && s > 0 && LrNcol(g, s) >= 1
  {
    if |segs| == 0 then |tiles| == 0 && cur == start
    else
      && Visited(g, s, idx0, i, n, start, segs, tiles)
      && var last := segs[|segs| - 1][|segs[|segs| - 1]| - 1];
         && !Found(idx0, i, n, tiles, |segs| - 1, LrNcol(g, s))
         && g.next[last] != -1 && g.next[last] != last && cur == g.next[last]
  }

  /** What the second phase of `_force_ds_outlet` returns after walking the
      outlet streams `segs` from `start`: it went on after every segment but
      the last; it returns the last tile, its outlet and the direction to it
      when that tile is `Found`, and otherwise `(-1, -1, nodata)`, having
      met three tiles without a proper direction or the end of the flow. */
  ghost predicate VisitOutcome(g: Grid, s: int, idx0: int, i: int, n: int, start: int,
                               segs: seq<seq<int>>, tiles: seq<int>, idxDs1: int, subidx1: int, dd1: int)
    requires Valid(g) && s > 0 && LrNcol(g, s) >= 1
  {
    && Visited(g, s, idx0, i, n, start, segs, tiles)
    && var m := |segs| - 1;
       var last := segs[m][|segs[m]| - 1];
       if Found(idx0, i, n, tiles, m, LrNcol(g, s)) then
         idxDs1 == tiles[m] && subidx1 == last && dd1 == D8.IdxToDd(idx0, tiles[m], LrNcol(g, s))
       else
         && idxDs1 == -1 && subidx1 == -1 && dd1 == D8.Nodata
         && (|tiles| - CountValid(idx0, tiles, LrNcol(g, s)) == 3 || g.next[last] == -1 || g.next[last] == last)
  }

  /** The walk stops at the last stream when its tile is `Found`, returning
      that tile, its outlet and the direction to it. */
  lemma VisitFound(g: Grid, s: int, idx0: int, i: int, n: int, start: int,
                   segs: seq<seq<int>>, tiles: seq<int>)
    requires Valid(g) && s > 0 && LrNcol(g, s) >= 1
    requires Visited(g, s, idx0, i, n, start, segs, tiles)
    requires Found(idx0, i, n, tiles, |segs| - 1, LrNcol(g, s))
    ensures var m := |segs| - 1;
            var last := segs[m][|segs[m]| - 1];
            && VisitOutcome(g, s, idx0, i, n, start, segs, tiles, tiles[m], last, D8.IdxToDd(idx0, tiles[m], LrNcol(g, s)))
            && 0 <= last < |g.next| && Tile(g, s, last) == tiles[m]
            && LeavesTile(g, s, tiles[m], last) && ValidDir(idx0, tiles[m], LrNcol(g, s))
  {
    var m := |segs| - 1;
    assert StreamOf(g, s, tiles[m], segs[m]);
  }

  /** The walk stops at the last stream, its tile not `Found`, where the flow
      leaves the grid or ends in a pit. */
  lemma VisitEnd(g: Grid, s: int, idx0: int, i: int, n: int, start: int,
                 segs: seq<seq<int>>, tiles: seq<int>)
    requires Valid(g) && s > 0 && LrNcol(g, s) >= 1
    requires Visited(g, s, idx0, i, n, start, segs, tiles)
    requires !Found(idx0, i, n, tiles, |segs| - 1, LrNcol(g, s))
    requires var last := segs[|segs| - 1][|segs[|segs| - 1]| - 1];
             g.next[last] == -1 || g.next[last] == last
    ensures VisitOutcome(g, s, idx0, i, n, start, segs, tiles, -1, -1, D8.Nodata)
  {
  }

  /** The walk goes on below the last stream, its tile not `Found`. */
  lemma VisitContinue(g: Grid, s: int, idx0: int, i: int, n: int, start: int,
                      segs: seq<seq<int>>, tiles: seq<int>)
    requires Valid(g) && s > 0 && LrNcol(g, s) >= 1
    requires Visited(g, s, idx0, i, n, start, segs, tiles)
    requires !Found(idx0, i, n, tiles, |segs| - 1, LrNcol(g, s))
    requires var last := segs[|segs| - 1][|segs[|segs| - 1]| - 1];
             g.next[last] != -1 && g.next[last] != last
    ensures VisitSoFar(g, s, idx0, i, n, start, segs, tiles, g.next[segs[|segs| - 1][|segs[|segs| - 1]| - 1]])
  {
  }

  /** Two chains of outlet streams from the same start agree on every
      segment both have: each stream is fixed by its first cell, and the
      next one starts below its outlet. */
  lemma {:induction false} ChainPrefixEqual(g: Grid, s: int, start: int, segs1: seq<seq<int>>, tiles1: seq<int>,
                                            segs2: seq<seq<int>>, tiles2: seq<int>, k: int)
    requires Valid(g) && s > 0
    requires OutletChain(g, s, start, segs1, tiles1) && OutletChain(g, s, start, segs2, tiles2)
    requires 0 <= k < |segs1| && k < |segs2|
    ensures segs1[k] == segs2[k] && tiles1[k] == tiles2[k]
    decreases k
  {
    if k > 0 {
      ChainPrefixEqual(g, s, start, segs1, tiles1, segs2, tiles2, k - 1);
      assert LinkedAt(g.next, segs1, k - 1) && LinkedAt(g.next, segs2, k - 1);
    }
    var p, q := segs1[k], segs2[k];
    assert p[0] == q[0];
    assert StreamOf(g, s, tiles1[k], p) && StreamOf(g, s, tiles2[k], q);
    OutletTraceUnique(g, s, tiles1[k], p[0], p, q);
  }

  /** Where another walk that `VisitOutcome` describes goes on after its
      `k`-th stream, this one does too. */
  lemma VisitGoesOn(g: Grid, s: int, idx0: int, i: int, n: int, start: int,
                    segs1: seq<seq<int>>, tiles1: seq<int>, a1: int, b1: int, c1: int,
                    segs2: seq<seq<int>>, tiles2: seq<int>, a2: int, b2: int, c2: int, k: int)
    requires Valid(g) && s > 0 && LrNcol(g, s) >= 1
    requires VisitOutcome(g, s, idx0, i, n, start, segs1, tiles1, a1, b1, c1)
    requires VisitOutcome(g, s, idx0, i, n, start, segs2, tiles2, a2, b2, c2)
    requires 0 <= k < |segs1| && k < |segs2| - 1
    ensures k < |segs1| - 1
  {
    forall j | 0 <= j <= k
      ensures segs1[j] == segs2[j] && tiles1[j] == tiles2[j]
    {
      ChainPrefixEqual(g, s, start, segs1, tiles1, segs2, tiles2, j);
    }
    assert tiles1[..k + 1] == tiles2[..k + 1] && tiles1[..k] == tiles2[..k];
    assert Continues(g, s, idx0, i, n, start, segs2, tiles2, k);
    var last := segs1[k][|segs1[k]| - 1];
    assert !Found(idx0, i, n, tiles1, k, LrNcol(g, s));
    assert (k + 1) - CountValid(idx0, tiles1[..k + 1], LrNcol(g, s)) < 3;
    assert g.next[last] != -1 && g.next[last] != last;
    assert tiles1[..|tiles1|] == tiles1;
  }

  /** A walk that `VisitOutcome` describes, having reached its `k`-th
      stream, does not stop before another one that it also describes. */
  lemma {:induction false} VisitNoShorter(g: Grid, s: int, idx0: int, i: int, n: int, start: int,
                                          segs1: seq<seq<int>>, tiles1: seq<int>, a1: int, b1: int, c1: int,
                                          segs2: seq<seq<int>>, tiles2: seq<int>, a2: int, b2: int, c2: int, k: int)
    requires Valid(g) && s > 0 && LrNcol(g, s) >= 1
    requires VisitOutcome(g, s, idx0, i, n, start, segs1, tiles1, a1, b1, c1)
    requires VisitOutcome(g, s, idx0, i, n, start, segs2, tiles2, a2, b2, c2)
    requires 0 <= k < |segs1| && k < |segs2|
    ensures |segs2| <= |segs1|
    decreases |segs2| - k
  {
    if k < |segs2| - 1 {
      VisitGoesOn(g, s, idx0, i, n, start, segs1, tiles1, a1, b1, c1, segs2, tiles2, a2, b2, c2, k);
      VisitNoShorter(g, s, idx0, i, n, start, segs1, tiles1, a1, b1, c1, segs2, tiles2, a2, b2, c2, k + 1);
    }
  }

  /** `VisitOutcome` fixes the walk: the streams, their tiles and the
      result are the same for every walk it describes. */
  lemma VisitOutcomeDetermined(g: Grid, s: int, idx0: int, i: int, n: int, start: int,
                               segs1: seq<seq<int>>, tiles1: seq<int>, a1: int, b1: int, c1: int,
                               segs2: seq<seq<int>>, tiles2: seq<int>, a2: int, b2: int, c2: int)
    requires Valid(g) && s > 0 && LrNcol(g, s) >= 1
    requires VisitOutcome(g, s, idx0, i, n, start, segs1, tiles1, a1, b1, c1)
    requires VisitOutcome(g, s, idx0, i, n, start, segs2, tiles2, a2, b2, c2)
    ensures segs1 == segs2 && tiles1 == tiles2 && a1 == a2 && b1 == b2 && c1 == c2
  {
    VisitNoShorter(g, s, idx0, i, n, start, segs1, tiles1, a1, b1, c1, segs2, tiles2, a2, b2, c2, 0);
    VisitNoShorter(g, s, idx0, i, n, start, segs2, tiles2, a2, b2, c2, segs1, tiles1, a1, b1, c1, 0);
    forall k | 0 <= k < |segs1|
      ensures segs1[k] == segs2[k] && tiles1[k] == tiles2[k]
    {
      ChainPrefixEqual(g, s, start, segs1, tiles1, segs2, tiles2, k);
    }
    assert segs1 == segs2 && tiles1 == tiles2;
  }

  /** One more stream, walked while fewer than three tiles lacked a proper
      direction. */
  lemma VisitAppend(g: Grid, s: int, idx0: int, i: int, n: int, start: int,
                    segs: seq<seq<int>>, tiles: seq<int>, cur: int, seg: seq<int>)
    requires Valid(g) && s > 0 && LrNcol(g, s) >= 1
    requires VisitSoFar(g, s, idx0, i, n, start, segs, tiles, cur)
    requires |tiles| - CountValid(idx0, tiles, LrNcol(g, s)) < 3
    requires OutletTrace(g, s, Tile(g, s, cur), cur, seg)
    ensures Visited(g, s, idx0, i, n, start, segs + [seg], tiles + [Tile(g, s, cur)])
  {
    if |segs| > 0 {
      assert tiles[..|tiles|] == tiles;
      assert Continues(g, s, idx0, i, n, start, segs, tiles, |segs| - 1);
    }
    OutletChainSnoc(g, s, start, segs, tiles, cur, seg);
    ContinuesSnoc(g, s, idx0, i, n, start, segs, tiles, seg, Tile(g, s, cur));
  }

  /** The loop of the second phase ends on its guard after three tiles
      without a proper direction. */
  lemma VisitGuardExit(g: Grid, s: int, idx0: int, i: int, n: int, start: int,
                       segs: seq<seq<int>>, tiles: seq<int>, cur: int)
    requires Valid(g) && s > 0 && LrNcol(g, s) >= 1
    requires VisitSoFar(g, s, idx0, i, n, start, segs, tiles, cur)
    requires |tiles| - CountValid(idx0, tiles, LrNcol(g, s)) == 3
    ensures VisitOutcome(g, s, idx0, i, n, start, segs, tiles, -1, -1, D8.Nodata)
  {
  }

  /** Appending the stream from `cur`, the start or the cell below the last
      outlet, keeps the chain. */
  lemma OutletChainSnoc(g: Grid, s: int, start: int, segs: seq<seq<int>>, tiles: seq<int>, cur: int, seg: seq<int>)
    requires Valid(g) && s > 0 && OutletChain(g, s, start, segs, tiles)
    requires |segs| == 0 ==> cur == start
    requires |segs| > 0 ==> cur == g.next[segs[|segs| - 1][|segs[|segs| - 1]| - 1]]
    requires OutletTrace(g, s, Tile(g, s, cur), cur, seg)
    ensures OutletChain(g, s, start, segs + [seg], tiles + [Tile(g, s, cur)])
  {
    var segs', tiles' := segs + [seg], tiles + [Tile(g, s, cur)];
    forall k | 0 <= k < |segs'|
      ensures StreamOf(g, s, tiles'[k], segs'[k])
    {
      if k < |segs| {
        assert segs'[k] == segs[k] && tiles'[k] == tiles[k];
        assert StreamOf(g, s, tiles[k], segs[k]);
      }
    }
    forall k | 0 <= k < |segs'| - 1
      ensures LinkedAt(g.next, segs', k)
    {
      assert segs'[k] == segs[k];
      if k + 1 < |segs| {
        assert segs'[k + 1] == segs[k + 1];
        assert LinkedAt(g.next, segs, k);
      }
    }
  }

  /** Appending a segment keeps what was said about the earlier ones. */
  lemma ContinuesSnoc(g: Grid, s: int, idx0: int, i: int, n: int, start: int,
                      segs: seq<seq<int>>, tiles: seq<int>, seg: seq<int>, t: int)
    requires Valid(g) && s > 0 && LrNcol(g, s) >= 1
    requires OutletChain(g, s, start, segs, tiles) && OutletChain(g, s, start, segs + [seg], tiles + [t])
    requires forall k :: 0 <= k < |segs| ==> Continues(g, s, idx0, i, n, start, segs, tiles, k)
    ensures forall k :: 0 <= k < |segs| ==> Continues(g, s, idx0, i, n, start, segs + [seg], tiles + [t], k)
  {
    var segs', tiles' := segs + [seg], tiles + [t];
    forall k | 0 <= k < |segs|
      ensures Continues(g, s, idx0, i, n, start, segs', tiles', k)
    {
      assert Continues(g, s, idx0, i, n, start, segs, tiles, k);
      assert segs'[k] == segs[k] && tiles'[k] == tiles[k];
      assert tiles'[..k] == tiles[..k] && tiles'[..k + 1] == tiles[..k + 1];
    }
  }

  /** `_force_ds_outlet`: from `subidx0`, first (when `n > 0`) walk down to
      the first cell with a nonzero `effare` mark, then visit the outlets of
      the tiles met further downstream and return the `n`-th one (counting
      from 1 when `n > 0`, from 0 otherwise) that `idx0` has a proper
      direction to; give up after three tiles without one or at the end of
      the flow. `path` is the walk, with each outlet stream appended. */
  method ForceDsOutlet(g: Grid, s: int, idx0: int, subidx0: int, effare: seq<int>, n: int, ghost rank: seq<nat>)
    returns (idxDs1: int, subidx1: int, dd1: int, path: seq<int>,
             ghost p1Len: nat, ghost tiles: seq<int>, ghost segs: seq<seq<int>>)
    requires WalkInputs(g, s, effare) && Ranked(g.next, rank)
    requires 0 <= subidx0 < |g.next|
    ensures IsDsWalk(g.next, path) && path[0] == subidx0
    // first phase: down to the effective area
    ensures 1 <= p1Len <= |path| && IsDsPath(g.next, path[..p1Len])
    ensures n <= 0 ==> p1Len == 1
    ensures n > 0 ==> forall k :: 1 <= k < p1Len - 1 ==> effare[path[k]] == 0
    ensures n > 0 && (p1Len == 1 || effare[path[p1Len - 1]] == 0) ==>
              && (g.next[path[p1Len - 1]] == -1 || g.next[path[p1Len - 1]] == path[p1Len - 1])
              && idxDs1 == -1 && subidx1 == -1 && dd1 == D8.Nodata && |path| == p1Len && tiles == [] && segs == []
    // second phase: the outlet streams walked from the end of the first
    ensures tiles == [] <==> n > 0 && (p1Len == 1 || effare[path[p1Len - 1]] == 0)
    ensures tiles != [] ==>
              && path == path[..p1Len] + Concat(segs)
              && VisitOutcome(g, s, idx0, if n > 0 then 1 else 0, n, path[p1Len - 1], segs, tiles, idxDs1, subidx1, dd1)
    ensures idxDs1 != -1 ==>
              && 0 <= subidx1 < |g.next| && Tile(g, s, subidx1) == idxDs1
              && LeavesTile(g, s, idxDs1, subidx1) && ValidDir(idx0, idxDs1, LrNcol(g, s))
  {
    idxDs1, subidx1, dd1 := -1, -1, D8.Nodata;
    tiles, segs := [], [];
    var subidx := subidx0;
    var ea := 0;
    var i := 0;
    if n > 0 {
      subidx, ea, path := ToEffectiveArea(g, subidx0, effare, rank);
      i := i + 1;
    } else {
      path := [subidx];
      ea := 1;
    }
    p1Len := |path|;
    ghost var p1 := path;
    assert path[..p1Len] == p1;
    PathIsWalk(g.next, path);
    // second phase, from the cell where the first one ended
    if ea != 0 {
      idxDs1, subidx1, dd1, path, tiles, segs := VisitOutlets(g, s, idx0, subidx, effare, i, n, path, rank);
      assert path[..p1Len] == p1;
    }
  }

  /** The second phase of `_force_ds_outlet`: from `subidx`, the last cell of
      `path`, visit the outlet of each tile met downstream, appending its
      stream to `path`, until the `n`-th tile with a proper direction from
      `idx0` (the count so far being `i`), three tiles without one, or the
      end of the flow. `segs` are the streams walked and `tiles` their
      tiles (`VisitOutcome`). */
  method VisitOutlets(g: Grid, s: int, idx0: int, subidx: int, effare: seq<int>, i: int, n: int,
                      path: seq<int>, ghost rank: seq<nat>)
    returns (idxDs1: int, subidx1: int, dd1: int, pathOut: seq<int>, ghost tiles: seq<int>, ghost segs: seq<seq<int>>)
    requires WalkInputs(g, s, effare) && Ranked(g.next, rank)
    requires IsDsWalk(g.next, path) && subidx == path[|path| - 1]
    ensures IsDsWalk(g.next, pathOut) && |path| < |pathOut| && pathOut[..|path|] == path
    ensures pathOut == path + Concat(segs)
    ensures VisitOutcome(g, s, idx0, i, n, subidx, segs, tiles, idxDs1, subidx1, dd1)
    ensures idxDs1 != -1 ==>
              && 0 <= subidx1 < |g.next| && Tile(g, s, subidx1) == idxDs1
              && LeavesTile(g, s, idxDs1, subidx1) && ValidDir(idx0, idxDs1, LrNcol(g, s))
  {
    var ncol := g.ncol / s;
    Tiles.LrNcolPositive(g.ncol, s);
    idxDs1, subidx1, dd1 := -1, -1, D8.Nodata;
    tiles, segs := [], [];
    var ext: seq<int> := [];
    var cur := subidx;
    var k := i;
    var j := 0;
    while j < 3
      invariant 0 <= cur < |g.next| && ext == Concat(segs)
      invariant k == i + CountValid(idx0, tiles, ncol) && j == |tiles| - CountValid(idx0, tiles, ncol)
      invariant VisitSoFar(g, s, idx0, i, n, subidx, segs, tiles, cur)
      invariant |segs| > 0 ==> ExtendsFrom(g, subidx, ext, segs)
      decreases rank[cur]
    {
      var idxDs, dd, out;
      idxDs, dd, out, ext, segs, tiles := VisitStep(g, s, idx0, i, n, subidx, rank, cur, ext, segs, tiles);
      if dd != D8.Nodata && !D8.IsPit(dd) {
        if k == n {
          VisitFound(g, s, idx0, i, n, subidx, segs, tiles);
          idxDs1, subidx1, dd1 := idxDs, out, dd;
          pathOut := path + ext;
          WalkJoin(g.next, path, ext);
          return;
        }
        k := k + 1;
      } else {
        j := j + 1;
      }
      var ds := g.next[out];
      if ds == out || ds == -1 {
        VisitEnd(g, s, idx0, i, n, subidx, segs, tiles);
        pathOut := path + ext;
        WalkJoin(g.next, path, ext);
        return;
      }
      VisitContinue(g, s, idx0, i, n, subidx, segs, tiles);
      cur := ds;
    }
    VisitGuardExit(g, s, idx0, i, n, subidx, segs, tiles, cur);
    pathOut := path + ext;
    WalkJoin(g.next, path, ext);
  }

  /** `ext`, the streams `segs` walked from `subidx`, is a downstream path
      from `subidx` to the last outlet. */
  ghost predicate ExtendsFrom(g: Grid, subidx: int, ext: seq<int>, segs: seq<seq<int>>)
    requires |segs| > 0 && |segs[|segs| - 1]| > 0
  {
    IsDsPath(g.next, ext) && ext[0] == subidx && ext[|ext| - 1] == segs[|segs| - 1][|segs[|segs| - 1]| - 1]
  }

  /** One round of the loop of the second phase: the outlet of the tile of
      `cur` and its stream, appended to `ext`, `segs` and `tiles`, and the
      direction `dd` from `idx0` to that tile. */
  method VisitStep(g: Grid, s: int, idx0: int, i: int, n: int, subidx: int, ghost rank: seq<nat>,
                   cur: int, ext: seq<int>, ghost segs: seq<seq<int>>, ghost tiles: seq<int>)
    returns (idxDs: int, dd: int, out: int, ext2: seq<int>, ghost segs2: seq<seq<int>>, ghost tiles2: seq<int>)
    requires Valid(g) && s > 0 && g.ncol >= s && LrNcol(g, s) >= 1 && Ranked(g.next, rank)
    requires 0 <= cur < |g.next| && ext == Concat(segs)
    requires VisitSoFar(g, s, idx0, i, n, subidx, segs, tiles, cur)
    requires |tiles| - CountValid(idx0, tiles, LrNcol(g, s)) < 3
    requires |segs| > 0 ==> ExtendsFrom(g, subidx, ext, segs)
    ensures Visited(g, s, idx0, i, n, subidx, segs2, tiles2) && |segs2| == |segs| + 1
    ensures out == segs2[|segs|][|segs2[|segs|]| - 1] && 0 <= out < |g.next| && rank[out] <= rank[cur]
    ensures ext2 == Concat(segs2) && ExtendsFrom(g, subidx, ext2, segs2)
    ensures tiles2[|tiles|] == idxDs && dd == D8.IdxToDd(idx0, idxDs, LrNcol(g, s))
    ensures CountValid(idx0, tiles2, LrNcol(g, s)) == CountValid(idx0, tiles, LrNcol(g, s)) + (if ValidDir(idx0, idxDs, LrNcol(g, s)) then 1 else 0)
    ensures Found(idx0, i, n, tiles2, |segs|, LrNcol(g, s)) <==>
              ValidDir(idx0, idxDs, LrNcol(g, s)) && i + CountValid(idx0, tiles, LrNcol(g, s)) == n
  {
    idxDs := Tile(g, s, cur);
    Tiles.SubidxToIdxNonneg(cur, g.ncol, s);
    var path2;
    out, path2 := Outlet(g, s, idxDs, cur, rank);
    dd := D8.IdxToDd(idx0, idxDs, g.ncol / s);
    ghost var last := if |segs| > 0 then ext[|ext| - 1] else cur;
    assert |segs| > 0 ==> g.next[last] == cur && cur != last;
    StepExt(g, subidx, segs, ext, cur, path2);
    VisitAppend(g, s, idx0, i, n, subidx, segs, tiles, cur, path2);
    CountValidSnocFound(idx0, i, n, tiles, idxDs, LrNcol(g, s));
    ext2 := ext + path2;
    tiles2, segs2 := tiles + [idxDs], segs + [path2];
  }

  /** Appending the stream that starts at `cur`, `subidx` or the cell below
      the last outlet, keeps `ext` the concatenation of the streams. */
  lemma StepExt(g: Grid, subidx: int, segs: seq<seq<int>>, ext: seq<int>, cur: int, seg: seq<int>)
    requires Valid(g) && ext == Concat(segs) && IsDsPath(g.next, seg) && seg[0] == cur
    requires |segs| == 0 ==> cur == subidx
    requires |segs| > 0 ==> |segs[|segs| - 1]| > 0 && ExtendsFrom(g, subidx, ext, segs)
    requires |segs| > 0 ==> g.next[ext[|ext| - 1]] == cur && cur != ext[|ext| - 1]
    ensures ext + seg == Concat(segs + [seg]) && ExtendsFrom(g, subidx, ext + seg, segs + [seg])
  {
    ConcatSnoc(segs, seg);
    if |segs| > 0 {
      PathAppend(g.next, ext, seg);
    } else {
      assert ext + seg == seg;
    }
  }

  /** Counting one more tile, and whether it is the one `Found`. */
  lemma CountValidSnocFound(idx0: int, i: int, n: int, tiles: seq<int>, t: int, ncol: int)
    requires ncol > 0
    ensures CountValid(idx0, tiles + [t], ncol) == CountValid(idx0, tiles, ncol) + (if ValidDir(idx0, t, ncol) then 1 else 0)
    ensures Found(idx0, i, n, tiles + [t], |tiles|, ncol) <==> ValidDir(idx0, t, ncol) && i + CountValid(idx0, tiles, ncol) == n
  {
    CountValidSnoc(idx0, tiles, t, ncol);
    assert (tiles + [t])[..|tiles|] == tiles;
  }
}
