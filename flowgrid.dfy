/** The high-resolution flow-direction grid handed to the upscaling: a D8
    code per cell and the flat index of each cell's downstream cell
    (`ds_index`), given separately and tied to the codes only at pits. */
module FlowGrid {
  import D8
  import Tiles

  /** `flwdir[i]` is the D8 code of cell `i`, `next[i]` its downstream cell
      (`-1` outside the domain, `i` itself for a pit) and `upa[i]` its
      upstream area. */
  datatype Grid = Grid(nrow: int, ncol: int, flwdir: seq<int>, next: seq<int>, upa: seq<int>)

  /** Shapes agree, downstream indices lie in the grid or are `-1`, and a cell
      is its own downstream cell exactly when its code is a pit code. */
  ghost predicate Valid(g: Grid) {
    && g.nrow > 0 && g.ncol > 0
    && |g.flwdir| == g.nrow * g.ncol
    && |g.next| == |g.flwdir| && |g.upa| == |g.flwdir|
    && (forall i :: 0 <= i < |g.next| ==> -1 <= g.next[i] < |g.next|)
    && (forall i :: 0 <= i < |g.next| ==> (g.next[i] == i <==> D8.IsPit(g.flwdir[i])))
  }

  /** The downstream graph is acyclic: `rank` is bounded by the number of
      cells and strictly decreases along every step that moves. */
  ghost predicate Ranked(next: seq<int>, rank: seq<nat>) {
    && |rank| == |next|
    && (forall i :: 0 <= i < |rank| ==> rank[i] < |rank|)
    && (forall i :: 0 <= i < |next| && 0 <= next[i] < |next| && next[i] != i ==> rank[next[i]] < rank[i])
  }

  /** `p` follows the downstream indices, moving at every step. */
  ghost predicate IsDsPath(next: seq<int>, p: seq<int>) {
    && |p| >= 1
    && (forall k :: 0 <= k < |p| ==> 0 <= p[k] < |next|)
    && (forall k :: 0 <= k < |p| - 1 ==> next[p[k]] == p[k + 1] && p[k + 1] != p[k])
  }

  /** A downstream path extended by the downstream cell of its last cell. */
  lemma DsPathSnoc(next: seq<int>, p: seq<int>, c: int)
    requires IsDsPath(next, p) && 0 <= c < |next|
    requires next[p[|p| - 1]] == c && c != p[|p| - 1]
    ensures IsDsPath(next, p + [c])
    ensures forall k :: 0 <= k < |p| ==> (p + [c])[k] == p[k]
    ensures (p + [c])[|p|] == c
  {
  }

  /** `p` follows the downstream indices, where a step may also repeat a cell
      (paths glued together at a shared cell). */
  ghost predicate IsDsWalk(next: seq<int>, p: seq<int>) {
    && |p| >= 1
    && (forall k :: 0 <= k < |p| ==> 0 <= p[k] < |next|)
    && (forall k :: 0 <= k < |p| - 1 ==> p[k + 1] == p[k] || p[k + 1] == next[p[k]])
  }

  /** Low-resolution cell holding subgrid cell `c`. */
  function Tile(g: Grid, s: int, c: int): int
    requires g.ncol > 0 && s > 0
  {
    Tiles.SubidxToIdx(c, g.ncol, s)
  }

  /** Number of low-resolution columns and cells. */
  function LrNcol(g: Grid, s: int): int requires s > 0 { Tiles.LrNcol(g.ncol, s) }
  function LrSize(g: Grid, s: int): int requires s > 0 { Tiles.LrNrow(g.nrow, s) * Tiles.LrNcol(g.ncol, s) }

  /** No element occurs twice. */
  predicate Distinct(xs: seq<int>) {
    forall i, j :: 0 <= i < j < |xs| ==> xs[i] != xs[j]
  }

  /** Python indexing, where `-1` is the last element. */
  function PyIndex(a: seq<int>, i: int): int
    requires -|a| <= i < |a|
  {
    if i < 0 then a[|a| + i] else a[i]
  }

  /** Along a moving downstream path the rank strictly decreases, so the path
      visits no cell twice. */
  lemma {:induction false} DsPathRank(next: seq<int>, rank: seq<nat>, p: seq<int>, i: int, j: int)
    requires Ranked(next, rank) && IsDsPath(next, p)
    requires 0 <= i < j < |p|
    ensures rank[p[j]] < rank[p[i]]
    decreases j - i
  {
    if j > i + 1 {
      DsPathRank(next, rank, p, i + 1, j);
    }
  }
}
