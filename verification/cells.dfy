/**
 * Cell codes, grids as values, the eight compass directions and disk counting.
 * A grid is the value of the board's N x N integer matrix: row i is g[i], and
 * the cell at row i, column j is g[i][j].
 */
module Cells {

  /** The integer codes the board stores in its cells. */
  const EMPTY: int := -1
  const BLACK: int := 0
  const WHITE: int := 1
  /** What `At` reports for a position off the grid; it is never a cell code. */
  const OFF: int := -2

  type Grid = seq<seq<int>>
  type Loc = (int, int)
  type Dir = (int, int)

  /** The board sizes the engine accepts: even and between 4 and 12. */
  predicate ValidSize(n: int) {
    4 <= n <= 12 && n % 2 == 0
  }

  predicate IsPlayer(c: int) {
    c == BLACK || c == WHITE
  }

  predicate IsGrid(g: Grid, n: int) {
    |g| == n && forall i :: 0 <= i < n ==> |g[i]| == n
  }

  predicate IsCellCode(v: int) {
    v == EMPTY || v == BLACK || v == WHITE
  }

  /** Every cell holds one of the three cell codes. */
  predicate ValidCells(g: Grid) {
    forall i, j :: 0 <= i < |g| && 0 <= j < |g[i]| ==> IsCellCode(g[i][j])
  }

  predicate InBounds(n: int, p: Loc) {
    0 <= p.0 < n && 0 <= p.1 < n
  }

  /** The cell at p, or OFF when p lies outside the grid. */
  function At(g: Grid, p: Loc): int {
    if 0 <= p.0 < |g| && 0 <= p.1 < |g[p.0]| then g[p.0][p.1] else OFF
  }

  /** The grid with the cell at p overwritten by v. */
  function SetCell(g: Grid, p: Loc, v: int): (r: Grid)
    requires 0 <= p.0 < |g| && 0 <= p.1 < |g[p.0]|
    ensures |r| == |g| && forall i :: 0 <= i < |g| ==> |r[i]| == |g[i]|
    ensures forall q :: At(r, q) == if q == p then v else At(g, q)
  {
    g[p.0 := g[p.0][p.1 := v]]
  }

  lemma SetCellKeepsValid(g: Grid, n: int, p: Loc, v: int)
    requires IsGrid(g, n) && ValidCells(g) && InBounds(n, p) && IsCellCode(v)
    ensures IsGrid(SetCell(g, p, v), n) && ValidCells(SetCell(g, p, v))
  {
    var r := SetCell(g, p, v);
    forall i, j | 0 <= i < |r| && 0 <= j < |r[i]| ensures IsCellCode(r[i][j]) {
      assert r[i][j] == At(r, (i, j));
    }
  }

  // ---------------------------------------------------------------------------
  // Directions

  /** The eight rays scanned by the engine, in the engine's order:
      down, down-right, right, up-right, up, up-left, left, down-left. */
  const Directions: seq<Dir> := [(1, 0), (1, 1), (0, 1), (-1, 1), (-1, 0), (-1, -1), (0, -1), (1, -1)]

  /** A unit step in one of the eight compass directions. */
  predicate IsCompass(d: Dir) {
    -1 <= d.0 <= 1 && -1 <= d.1 <= 1 && d != (0, 0)
  }

  /** The position of `d` in `Directions` (8 when it is not there). */
  function DirIndex(d: Dir): (k: nat)
    ensures k < 8 <==> d in Directions
    ensures k < 8 ==> Directions[k] == d
  {
    if d == (1, 0) then 0
    else if d == (1, 1) then 1
    else if d == (0, 1) then 2
    else if d == (-1, 1) then 3
    else if d == (-1, 0) then 4
    else if d == (-1, -1) then 5
    else if d == (0, -1) then 6
    else if d == (1, -1) then 7
    else 8
  }

  lemma DirectionsAreCompass()
    ensures forall d :: d in Directions <==> IsCompass(d)
    ensures forall k :: 0 <= k < |Directions| ==> DirIndex(Directions[k]) == k
  {
  }

  /** One step from p along d. */
  function Next(p: Loc, d: Dir): Loc {
    (p.0 + d.0, p.1 + d.1)
  }

  /** t times the component dx of a compass direction. */
  function Offset(t: int, dx: int): int {
    if dx > 0 then t else if dx < 0 then -t else 0
  }

  /** The position t steps from p along the compass direction d. */
  function Ray(p: Loc, d: Dir, t: int): Loc {
    (p.0 + Offset(t, d.0), p.1 + Offset(t, d.1))
  }

  lemma RayNext(p: Loc, d: Dir, t: int)
    requires IsCompass(d)
    ensures Ray(Next(p, d), d, t) == Ray(p, d, t + 1)
    ensures Ray(p, d, 1) == Next(p, d) && Ray(p, d, 0) == p
  {
  }

  /** The number of steps t with Ray(p, d, t) == q, read off one non-zero component of d. */
  function StepIndex(p: Loc, d: Dir, q: Loc): int {
    if d.0 != 0 then Offset(q.0 - p.0, d.0) else Offset(q.1 - p.1, d.1)
  }

  /** q is one of the m cells p, p + d, ..., p + (m - 1) d. */
  predicate OnRun(p: Loc, d: Dir, m: int, q: Loc) {
    var t := StepIndex(p, d, q);
    0 <= t < m && q == Ray(p, d, t)
  }

  lemma OnRunAt(p: Loc, d: Dir, m: int, t: int)
    requires IsCompass(d) && 0 <= t < m
    ensures OnRun(p, d, m, Ray(p, d, t))
  {
  }

  /** A run starting at p is p itself followed by a run starting one step further. */
  lemma OnRunStep(p: Loc, d: Dir, m: int, q: Loc)
    requires IsCompass(d) && m >= 1
    ensures OnRun(p, d, m, q) <==> q == p || OnRun(Next(p, d), d, m - 1, q)
  {
  }

  /** Two different compass rays from one position never meet again, and never return to it. */
  lemma RaysDisjoint(p: Loc, d: Dir, e: Dir, t: int, u: int)
    requires IsCompass(d) && IsCompass(e) && t >= 1 && u >= 1
    ensures Ray(p, d, t) != p
    ensures Ray(p, d, t) == Ray(p, e, u) ==> d == e && t == u
  {
  }

  /** Distance to the edge along d; it shrinks with every in-bounds step along a compass direction. */
  function StepsLeft(n: int, p: Loc, d: Dir): nat {
    Reach(n, p.0, d.0) + Reach(n, p.1, d.1)
  }

  function Reach(n: int, x: int, dx: int): nat {
    if dx > 0 && x < n then n - x else if dx < 0 && x >= 0 then x + 1 else 0
  }

  // ---------------------------------------------------------------------------
  // Counting cells

  /** The number of entries of `row` equal to v. */
  function CountRow(row: seq<int>, v: int): nat {
    if row == [] then 0 else CountRow(row[..|row| - 1], v) + (if row[|row| - 1] == v then 1 else 0)
  }

  /** The number of cells of g equal to v. */
  function Count(g: Grid, v: int): nat {
    if g == [] then 0 else Count(g[..|g| - 1], v) + CountRow(g[|g| - 1], v)
  }

  lemma {:induction false} CountRowUpdate(row: seq<int>, j: int, w: int, v: int)
    requires 0 <= j < |row|
    ensures CountRow(row[j := w], v) == CountRow(row, v) - (if row[j] == v then 1 else 0) + (if w == v then 1 else 0)
  {
    var m := |row| - 1;
    if j == m {
      assert row[j := w][..m] == row[..m];
    } else {
      assert row[j := w][..m] == row[..m][j := w];
      CountRowUpdate(row[..m], j, w, v);
    }
  }

  /** Overwriting one cell changes the count of v by what leaves and what arrives. */
  lemma {:induction false} CountSetCell(g: Grid, p: Loc, w: int, v: int)
    requires 0 <= p.0 < |g| && 0 <= p.1 < |g[p.0]|
    ensures Count(SetCell(g, p, w), v) == Count(g, v) - (if g[p.0][p.1] == v then 1 else 0) + (if w == v then 1 else 0)
  {
    var m := |g| - 1;
    var r := SetCell(g, p, w);
    if p.0 == m {
      assert r[..m] == g[..m];
      CountRowUpdate(g[m], p.1, w, v);
    } else {
      assert r[..m] == SetCell(g[..m], p, w);
      CountSetCell(g[..m], p, w, v);
    }
  }

  /** Placing a disk of colour w on a free cell: one free cell fewer, one w disk more. */
  lemma CountPlace(g: Grid, p: Loc, w: int)
    requires 0 <= p.0 < |g| && 0 <= p.1 < |g[p.0]| && g[p.0][p.1] == EMPTY && IsPlayer(w)
    ensures Count(SetCell(g, p, w), EMPTY) == Count(g, EMPTY) - 1
    ensures Count(SetCell(g, p, w), w) == Count(g, w) + 1
    ensures Count(SetCell(g, p, w), 1 - w) == Count(g, 1 - w)
  {
    CountSetCell(g, p, w, EMPTY);
    CountSetCell(g, p, w, w);
    CountSetCell(g, p, w, 1 - w);
  }

  lemma {:induction false} CountRowTotal(row: seq<int>)
    requires forall j :: 0 <= j < |row| ==> IsCellCode(row[j])
    ensures CountRow(row, EMPTY) + CountRow(row, BLACK) + CountRow(row, WHITE) == |row|
  {
    if row != [] {
      CountRowTotal(row[..|row| - 1]);
    }
  }

  lemma {:induction false} CountTotalRows(g: Grid, n: int)
    requires forall i :: 0 <= i < |g| ==> |g[i]| == n
    requires ValidCells(g)
    ensures Count(g, EMPTY) + Count(g, BLACK) + Count(g, WHITE) == |g| * n
  {
    if g != [] {
      var m := |g| - 1;
      CountTotalRows(g[..m], n);
      CountRowTotal(g[m]);
      assert |g| * n == m * n + n;
    }
  }

  /** On a valid grid every cell is empty, black or white, so the three counts add up to n * n. */
  lemma CountTotal(g: Grid, n: int)
    requires IsGrid(g, n) && ValidCells(g)
    ensures Count(g, EMPTY) + Count(g, BLACK) + Count(g, WHITE) == n * n
  {
    CountTotalRows(g, n);
  }

  lemma {:induction false} CountRowAbsent(row: seq<int>, v: int)
    requires forall j :: 0 <= j < |row| ==> row[j] != v
    ensures CountRow(row, v) == 0
  {
    if row != [] {
      CountRowAbsent(row[..|row| - 1], v);
    }
  }

  /** A value that no cell holds has count zero. */
  lemma {:induction false} CountAbsent(g: Grid, v: int)
    requires forall i, j :: 0 <= i < |g| && 0 <= j < |g[i]| ==> g[i][j] != v
    ensures Count(g, v) == 0
  {
    if g != [] {
      CountAbsent(g[..|g| - 1], v);
      CountRowAbsent(g[|g| - 1], v);
    }
  }
}
