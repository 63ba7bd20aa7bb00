/** `_rep_cell`: the representative cell of a tile and the cells of its
    effective area. The effective-area shape (a floating-point test on the
    offsets from the tile centre) is given as a mask over the tile's local
    indices. */
module Representative {
  import Arith
  import opened FlowGrid
  import D8
  import Tiles

  /** The tile `idx0` lies in the low-resolution grid and `effMask[t]` says
      whether its `t`-th cell is in the effective area. */
  ghost predicate TileArgs(g: Grid, s: int, idx0: int, effMask: seq<bool>) {
    Valid(g) && s > 0 && g.ncol >= s && 0 <= idx0 < LrSize(g, s) && |effMask| == s * s
  }

  /** The `t`-th subgrid cell of tile `idx0`. */
  function Cell(g: Grid, s: int, idx0: int, t: int): int
    requires s > 0 && g.ncol >= s
  {
    Tiles.CellidxToSubidx(t, idx0, g.ncol, s)
  }

  lemma CellFacts(g: Grid, s: int, idx0: int, effMask: seq<bool>, t: int)
    requires TileArgs(g, s, idx0, effMask) && 0 <= t < s * s
    ensures 0 <= Cell(g, s, idx0, t) < |g.next|
    ensures Tile(g, s, Cell(g, s, idx0, t)) == idx0
    ensures Tiles.LocalIdx(Cell(g, s, idx0, t), g.ncol, s) == t
  {
    Tiles.CellInRange(t, idx0, g.nrow, g.ncol, s);
    Tiles.CellRoundTrip(t, idx0, g.ncol, s);
    Tiles.LocalOfCell(t, idx0, g.ncol, s);
  }

  /** The `t`-th cell takes part in the search for the representative cell:
      it is a pit or lies in the effective area. */
  ghost predicate Eligible(g: Grid, s: int, idx0: int, effMask: seq<bool>, t: int)
    requires TileArgs(g, s, idx0, effMask) && 0 <= t < s * s
  {
    CellFacts(g, s, idx0, effMask, t);
    D8.IsPit(g.flwdir[Cell(g, s, idx0, t)]) || effMask[t]
  }

  /** Upstream area of the `t`-th cell. */
  ghost function UpaAt(g: Grid, s: int, idx0: int, effMask: seq<bool>, t: int): int
    requires TileArgs(g, s, idx0, effMask) && 0 <= t < s * s
  {
    CellFacts(g, s, idx0, effMask, t);
    g.upa[Cell(g, s, idx0, t)]
  }

  /** The effective-area cells among the first `n` cells, in visiting order. */
  ghost function EffCells(g: Grid, s: int, idx0: int, effMask: seq<bool>, n: int): seq<int>
    requires TileArgs(g, s, idx0, effMask) && 0 <= n <= s * s
  {
    if n == 0 then []
    else EffCells(g, s, idx0, effMask, n - 1) + (if effMask[n - 1] then [Cell(g, s, idx0, n - 1)] else [])
  }

  /** Python's `round(n / 2.)`, where halves round to the even neighbour. */
  function RoundHalf(n: nat): nat {
    var q := n / 2;
    if n % 2 == 0 || q % 2 == 0 then q else q + 1
  }

  /** The fallback "centre" index `round(s**2 / 2.)` is `s * s / 2` and
      lies in the tile. */
  lemma RoundHalfSquare(s: int)
    requires s > 0
    ensures RoundHalf(s * s) == s * s / 2 < s * s
  {
    var m := s / 2;
    var h := m * m + m;
    if s % 2 == 1 {
      SquareOf(s, m, 1);
      Arith.DivModOf(2 * h, 1, 2);
      Arith.DivModOf(h, 0, 2);
    } else {
      SquareOf(s, m, 0);
      Arith.DivModOf(2 * m * m, 0, 2);
    }
  }

  lemma SquareOf(s: int, m: int, r: int)
    requires s == 2 * m + r && (r == 0 || r == 1)
    ensures r == 1 ==> s * s == 2 * (2 * (m * m + m)) + 1
    ensures r == 0 ==> s * s == 2 * m * m * 2
  {
  }

  /** The effective-area cells are distinct cells of tile `idx0` and include
      every masked cell. */
  lemma {:induction false} EffCellsFacts(g: Grid, s: int, idx0: int, effMask: seq<bool>, n: int)
    requires TileArgs(g, s, idx0, effMask) && 0 <= n <= s * s
    ensures var e := EffCells(g, s, idx0, effMask, n);
            && (forall k :: 0 <= k < |e| ==>
                  0 <= e[k] < |g.next| && Tile(g, s, e[k]) == idx0 && Tiles.LocalIdx(e[k], g.ncol, s) < n)
            && Distinct(e)
            && (forall t :: 0 <= t < n && effMask[t] ==> Cell(g, s, idx0, t) in e)
  {
    if n > 0 {
      EffCellsFacts(g, s, idx0, effMask, n - 1);
      CellFacts(g, s, idx0, effMask, n - 1);
      var e := EffCells(g, s, idx0, effMask, n - 1);
      if effMask[n - 1] {
        var c := Cell(g, s, idx0, n - 1);
        forall k | 0 <= k < |e|
          ensures e[k] != c
        {
          assert Tiles.LocalIdx(e[k], g.ncol, s) < n - 1;
        }
        assert EffCells(g, s, idx0, effMask, n) == e + [c];
      }
    }
  }

  /** `_rep_cell`: among the cells of tile `idx0` that are pits or in the
      effective area, the first one with the largest positive upstream area
      (the `tm`-th); when there is none, the centre cell. `repcells` are the
      effective-area cells, followed by the representative cell when it is a
      pit outside the effective area. */
  ghost predicate IsRepCell(g: Grid, s: int, idx0: int, effMask: seq<bool>, subidx0: int, repcells: seq<int>, tm: int)
    requires TileArgs(g, s, idx0, effMask)
  {
    && 0 <= subidx0 < |g.next| && Tile(g, s, subidx0) == idx0
    && ((tm == -1) <==> forall t :: 0 <= t < s * s && Eligible(g, s, idx0, effMask, t) ==>
                                      UpaAt(g, s, idx0, effMask, t) <= 0)
    && (tm != -1 ==>
          && 0 <= tm < s * s && Eligible(g, s, idx0, effMask, tm) && subidx0 == Cell(g, s, idx0, tm)
          && (forall t :: 0 <= t < s * s && Eligible(g, s, idx0, effMask, t) ==>
                UpaAt(g, s, idx0, effMask, t) <= UpaAt(g, s, idx0, effMask, tm))
          && (forall t :: 0 <= t < tm && Eligible(g, s, idx0, effMask, t) ==>
                UpaAt(g, s, idx0, effMask, t) < UpaAt(g, s, idx0, effMask, tm)))
    && (tm == -1 ==> subidx0 == Cell(g, s, idx0, s * s / 2))
    && (var e := EffCells(g, s, idx0, effMask, s * s);
        repcells == e + if tm != -1 && D8.IsPit(g.flwdir[subidx0]) && subidx0 !in e then [subidx0] else [])
    && (forall k :: 0 <= k < |repcells| ==> 0 <= repcells[k] < |g.next| && Tile(g, s, repcells[k]) == idx0)
    && Distinct(repcells)
  }

  /** `_rep_cell`: visits the cells of the tile in row-major order, keeping
      the first strict maximum. */
  method RepCell(g: Grid, s: int, idx0: int, effMask: seq<bool>)
    returns (subidx0: int, repcells: seq<int>, ghost tm: int)
    requires TileArgs(g, s, idx0, effMask)
    ensures IsRepCell(g, s, idx0, effMask, subidx0, repcells, tm)
  {
    var upa0 := 0;
    subidx0, tm := -1, -1;
    repcells := [];
    for idx := 0 to s * s
      invariant repcells == EffCells(g, s, idx0, effMask, idx)
      invariant tm == -1 ==> subidx0 == -1 && upa0 == 0
      invariant tm != -1 ==>
                  && 0 <= tm < idx && Eligible(g, s, idx0, effMask, tm) && subidx0 == Cell(g, s, idx0, tm)
                  && 0 < upa0 == UpaAt(g, s, idx0, effMask, tm)
                  && forall t :: 0 <= t < tm && Eligible(g, s, idx0, effMask, t) ==> UpaAt(g, s, idx0, effMask, t) < upa0
      invariant forall t :: 0 <= t < idx && Eligible(g, s, idx0, effMask, t) ==> UpaAt(g, s, idx0, effMask, t) <= upa0
    {
      var subidx := Cell(g, s, idx0, idx);
      CellFacts(g, s, idx0, effMask, idx);
      var ispit := D8.IsPit(g.flwdir[subidx]);
      var effArea := effMask[idx];
      if ispit || effArea {
        var upa := g.upa[subidx];
        if effArea {
          repcells := repcells + [subidx];
        }
        if upa > upa0 {
          upa0 := upa;
          subidx0 := subidx;
          tm := idx;
        }
      }
    }
    EffCellsFacts(g, s, idx0, effMask, s * s);
    if tm != -1 {
      CellFacts(g, s, idx0, effMask, tm);
    }
    if subidx0 != -1 && D8.IsPit(g.flwdir[subidx0]) && subidx0 !in repcells {
      repcells := repcells + [subidx0];
    } else if subidx0 == -1 {
      // no eligible cell had a positive area: fall back to the centre
      var idx := RoundHalf(s * s);
      RoundHalfSquare(s);
      subidx0 := Cell(g, s, idx0, idx);
      CellFacts(g, s, idx0, effMask, idx);
    }
  }
}
