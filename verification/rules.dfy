/**
 * The rules of the board engine as functions on grid values: the direction
 * scan, the row-major legal-action enumeration, the flip walk of a move and the
 * starting position, together with what they are proved to mean.
 */
module Rules {
  import opened Wrappers
  import opened Cells

  /** One entry of the legal-action dictionary: a key location and its direction list. */
  datatype Action = Action(loc: Loc, dirs: seq<Dir>)

  // ---------------------------------------------------------------------------
  // The starting position

  /** An n x n grid whose every cell is v. */
  function Filled(n: nat, v: int): Grid {
    seq(n, _ => seq(n, _ => v))
  }

  /** The empty grid with the four centre disks: white on the main diagonal, black on the other. */
  function StartGrid(n: int): Grid
    requires ValidSize(n)
  {
    var h := n / 2;
    var g0 := Filled(n, EMPTY);
    var g1 := SetCell(g0, (h - 1, h - 1), WHITE);
    var g2 := SetCell(g1, (h, h - 1), BLACK);
    var g3 := SetCell(g2, (h - 1, h), BLACK);
    SetCell(g3, (h, h), WHITE)
  }

  /** Where the four centre disks stand. */
  function StartCell(n: int, p: Loc): int {
    var h := n / 2;
    if p == (h - 1, h - 1) || p == (h, h) then WHITE
    else if p == (h, h - 1) || p == (h - 1, h) then BLACK
    else EMPTY
  }

  lemma FilledSpec(n: nat, v: int)
    ensures IsGrid(Filled(n, v), n)
    ensures forall p :: InBounds(n, p) ==> At(Filled(n, v), p) == v
    ensures IsCellCode(v) ==> ValidCells(Filled(n, v))
  {
  }

  /** The starting grid has exactly the four centre disks, two of each colour, and n * n - 4 free cells. */
  lemma StartGridSpec(n: int)
    requires ValidSize(n)
    ensures var g := StartGrid(n);
      && IsGrid(g, n) && ValidCells(g)
      && (forall p :: InBounds(n, p) ==> At(g, p) == StartCell(n, p))
      && Count(g, BLACK) == 2 && Count(g, WHITE) == 2 && Count(g, EMPTY) == n * n - 4
  {
    var h := n / 2;
    var g0 := Filled(n, EMPTY);
    FilledSpec(n, EMPTY);
    var g1 := SetCell(g0, (h - 1, h - 1), WHITE);
    var g2 := SetCell(g1, (h, h - 1), BLACK);
    var g3 := SetCell(g2, (h - 1, h), BLACK);
    var g := SetCell(g3, (h, h), WHITE);
    SetCellKeepsValid(g0, n, (h - 1, h - 1), WHITE);
    SetCellKeepsValid(g1, n, (h, h - 1), BLACK);
    SetCellKeepsValid(g2, n, (h - 1, h), BLACK);
    SetCellKeepsValid(g3, n, (h, h), WHITE);
    EmptyGridCounts(g0, n);
    assert At(g0, (h - 1, h - 1)) == At(g0, (h, h - 1)) == At(g0, (h - 1, h)) == At(g0, (h, h)) == EMPTY;
    StartCounts(h, n * n, g0, g1, g2, g3, g);
  }

  lemma EmptyGridCounts(g0: Grid, n: int)
    requires IsGrid(g0, n) && ValidCells(g0)
    requires forall p :: InBounds(n, p) ==> At(g0, p) == EMPTY
    ensures Count(g0, EMPTY) == n * n && Count(g0, BLACK) == 0 && Count(g0, WHITE) == 0
  {
    forall i, j | 0 <= i < |g0| && 0 <= j < |g0[i]| ensures g0[i][j] == EMPTY {
      assert At(g0, (i, j)) == g0[i][j];
    }
    CountAbsent(g0, BLACK);
    CountAbsent(g0, WHITE);
    CountTotal(g0, n);
  }

  /** The four opening placements, counted from a grid whose counts are known; the
      placements are at rows and columns h - 1 and h, all empty beforehand. */
  lemma StartCounts(h: int, t: int, g0: Grid, g1: Grid, g2: Grid, g3: Grid, g: Grid)
    requires 1 <= h && |g0| > h && |g0[h - 1]| > h && |g0[h]| > h
    requires g0[h - 1][h - 1] == EMPTY && g0[h][h - 1] == EMPTY && g0[h - 1][h] == EMPTY && g0[h][h] == EMPTY
    requires Count(g0, EMPTY) == t && Count(g0, BLACK) == 0 && Count(g0, WHITE) == 0
    requires g1 == g0[h - 1 := g0[h - 1][h - 1 := WHITE]]
    requires g2 == g1[h := g1[h][h - 1 := BLACK]]
    requires g3 == g2[h - 1 := g2[h - 1][h := BLACK]]
    requires g == g3[h := g3[h][h := WHITE]]
    ensures Count(g, BLACK) == 2 && Count(g, WHITE) == 2 && Count(g, EMPTY) == t - 4
  {
    PlaceCounts(g0, (h - 1, h - 1), WHITE, t, 0, 0);
    PlaceCounts(g1, (h, h - 1), BLACK, t - 1, 0, 1);
    PlaceCounts(g2, (h - 1, h), BLACK, t - 2, 1, 1);
    PlaceCounts(g3, (h, h), WHITE, t - 3, 2, 1);
  }

  /** One disk of colour w placed on a free cell of a grid with e free cells, b black and w white disks. */
  lemma PlaceCounts(g: Grid, p: Loc, w: int, e: int, b: int, x: int)
    requires 0 <= p.0 < |g| && 0 <= p.1 < |g[p.0]| && g[p.0][p.1] == EMPTY && IsPlayer(w)
    requires Count(g, EMPTY) == e && Count(g, BLACK) == b && Count(g, WHITE) == x
    ensures var r := g[p.0 := g[p.0][p.1 := w]];
      && Count(r, EMPTY) == e - 1
      && Count(r, BLACK) == b + (if w == BLACK then 1 else 0)
      && Count(r, WHITE) == x + (if w == WHITE then 1 else 0)
  {
    CountPlace(g, p, w);
  }

  // ---------------------------------------------------------------------------
  // Scanning for legal directions

  /** The scan's walk from p along d: false at the edge or an empty cell, false at an own
      disk before any opponent disk, true at an own disk after one; `found` records that an
      opponent disk has been passed. */
  function Captures(g: Grid, n: int, p: Loc, d: Dir, color: int, found: bool): bool
    requires IsGrid(g, n) && IsCompass(d)
    decreases StepsLeft(n, p, d)
  {
    if !InBounds(n, p) then false
    else if g[p.0][p.1] == EMPTY then false
    else if g[p.0][p.1] == color && !found then false
    else if g[p.0][p.1] == color && found then true
    else Captures(g, n, Next(p, d), d, color, found || g[p.0][p.1] == 1 - color)
  }

  /** The number of consecutive cells equal to v from p along d: the run stops at the first
      other cell or at the edge. */
  function RunLength(g: Grid, n: int, p: Loc, d: Dir, v: int): (m: nat)
    requires IsGrid(g, n) && IsCompass(d)
    ensures forall t :: 0 <= t < m ==> At(g, Ray(p, d, t)) == v
    ensures !InBounds(n, Ray(p, d, m)) || At(g, Ray(p, d, m)) != v
    decreases StepsLeft(n, p, d)
  {
    if InBounds(n, p) && g[p.0][p.1] == v then
      var m' := RunLength(g, n, Next(p, d), d, v);
      RunExtends(g, n, p, d, v, m');
      1 + m'
    else
      RayNext(p, d, 0);
      0
  }

  /** A run of m' cells equal to v starting one step after p, with p itself holding v,
      is a run of m' + 1 cells starting at p. */
  lemma RunExtends(g: Grid, n: int, p: Loc, d: Dir, v: int, m': int)
    requires IsCompass(d) && At(g, p) == v
    requires forall t :: 0 <= t < m' ==> At(g, Ray(Next(p, d), d, t)) == v
    requires !InBounds(n, Ray(Next(p, d), d, m')) || At(g, Ray(Next(p, d), d, m')) != v
    ensures forall t :: 0 <= t < m' + 1 ==> At(g, Ray(p, d, t)) == v
    ensures !InBounds(n, Ray(p, d, m' + 1)) || At(g, Ray(p, d, m' + 1)) != v
  {
    RayNext(p, d, m');
    forall t | 0 <= t < m' + 1 ensures At(g, Ray(p, d, t)) == v {
      RayNext(p, d, t - 1);
    }
  }

  /** A run is determined by its cells: any m with v on the first m cells and not on the next is the run length. */
  lemma RunLengthExact(g: Grid, n: int, p: Loc, d: Dir, v: int, m: nat)
    requires IsGrid(g, n) && IsCompass(d) && v != OFF
    requires forall t :: 0 <= t < m ==> At(g, Ray(p, d, t)) == v
    requires At(g, Ray(p, d, m)) != v
    ensures RunLength(g, n, p, d, v) == m
  {
  }

  /** Two grids that agree along a ray have the same runs along it. */
  lemma RunLengthFrame(g: Grid, h: Grid, n: int, p: Loc, d: Dir, v: int)
    requires IsGrid(g, n) && IsGrid(h, n) && IsCompass(d) && v != OFF
    requires forall t :: 0 <= t ==> At(g, Ray(p, d, t)) == At(h, Ray(p, d, t))
    ensures RunLength(g, n, p, d, v) == RunLength(h, n, p, d, v)
  {
    var m := RunLength(g, n, p, d, v);
    assert At(h, Ray(p, d, m)) == At(g, Ray(p, d, m));
    RunLengthExact(h, n, p, d, v, m);
  }

  /** The scan's walk captures exactly when the run of opponent disks ends on an own disk,
      and the run is non-empty unless an opponent disk was already passed. */
  lemma {:induction false} CapturesByRun(g: Grid, n: int, p: Loc, d: Dir, color: int, found: bool)
    requires IsGrid(g, n) && ValidCells(g) && IsCompass(d) && IsPlayer(color)
    ensures var m := RunLength(g, n, p, d, 1 - color);
      Captures(g, n, p, d, color, found) <==> (found || m >= 1) && At(g, Ray(p, d, m)) == color
    decreases StepsLeft(n, p, d)
  {
    if InBounds(n, p) && g[p.0][p.1] == 1 - color {
      CapturesByRun(g, n, Next(p, d), d, color, true);
      CapturesPastOpponent(g, n, p, d, color, found);
    } else {
      CapturesAtRunStart(g, n, p, d, color, found);
    }
  }

  /** CapturesByRun for a walk that starts on an opponent disk, from the same fact one step on. */
  lemma CapturesPastOpponent(g: Grid, n: int, p: Loc, d: Dir, color: int, found: bool)
    requires IsGrid(g, n) && IsCompass(d) && IsPlayer(color) && InBounds(n, p) && g[p.0][p.1] == 1 - color
    requires Captures(g, n, Next(p, d), d, color, true)
      <==> At(g, Ray(Next(p, d), d, RunLength(g, n, Next(p, d), d, 1 - color))) == color
    ensures var m := RunLength(g, n, p, d, 1 - color);
      Captures(g, n, p, d, color, found) <==> (found || m >= 1) && At(g, Ray(p, d, m)) == color
  {
    var m' := RunLength(g, n, Next(p, d), d, 1 - color);
    assert RunLength(g, n, p, d, 1 - color) == m' + 1;
    RayNext(p, d, m');
  }

  /** CapturesByRun for a walk that does not start on an opponent disk: the run is empty. */
  lemma CapturesAtRunStart(g: Grid, n: int, p: Loc, d: Dir, color: int, found: bool)
    requires IsGrid(g, n) && ValidCells(g) && IsCompass(d) && IsPlayer(color)
    requires !(InBounds(n, p) && g[p.0][p.1] == 1 - color)
    ensures var m := RunLength(g, n, p, d, 1 - color);
      Captures(g, n, p, d, color, found) <==> (found || m >= 1) && At(g, Ray(p, d, m)) == color
  {
    assert RunLength(g, n, p, d, 1 - color) == 0;
    RayNext(p, d, 0);
  }

  /** Capture along d from loc, stated without any walk: for some k >= 2 the k-th cell holds
      the mover's disk and every cell strictly before it holds the opponent's. */
  ghost predicate Brackets(g: Grid, loc: Loc, d: Dir, color: int, k: int) {
    2 <= k && At(g, Ray(loc, d, k)) == color && forall m :: 1 <= m < k ==> At(g, Ray(loc, d, m)) == 1 - color
  }

  /** The scan of direction d from loc succeeds exactly when some k brackets a run of opponent disks,
      and that k is one more than the run of opponent disks next to loc. */
  lemma CapturesIffBrackets(g: Grid, n: int, loc: Loc, d: Dir, color: int)
    requires IsGrid(g, n) && ValidCells(g) && IsCompass(d) && IsPlayer(color)
    ensures Captures(g, n, Next(loc, d), d, color, false) <==> exists k :: Brackets(g, loc, d, color, k)
    ensures forall k :: Brackets(g, loc, d, color, k) ==> k == RunLength(g, n, Next(loc, d), d, 1 - color) + 1
  {
    var p := Next(loc, d);
    var m := RunLength(g, n, p, d, 1 - color);
    CapturesByRun(g, n, p, d, color, false);
    RayNext(loc, d, m);
    if Captures(g, n, p, d, color, false) {
      RunBrackets(g, n, loc, d, color);
    }
    forall k | Brackets(g, loc, d, color, k) ensures k == m + 1 {
      BracketsMatchRun(g, n, loc, d, color, k);
    }
  }

  /** A run of opponent disks next to loc that ends on an own disk is bracketed. */
  lemma RunBrackets(g: Grid, n: int, loc: Loc, d: Dir, color: int)
    requires IsGrid(g, n) && IsCompass(d) && IsPlayer(color)
    requires var m := RunLength(g, n, Next(loc, d), d, 1 - color);
      m >= 1 && At(g, Ray(Next(loc, d), d, m)) == color
    ensures Brackets(g, loc, d, color, RunLength(g, n, Next(loc, d), d, 1 - color) + 1)
  {
    RunBracketsAt(g, loc, d, color, RunLength(g, n, Next(loc, d), d, 1 - color));
  }

  /** RunBrackets for a run of length m given by its cells. */
  lemma RunBracketsAt(g: Grid, loc: Loc, d: Dir, color: int, m: int)
    requires IsCompass(d) && m >= 1
    requires forall t :: 0 <= t < m ==> At(g, Ray(Next(loc, d), d, t)) == 1 - color
    requires At(g, Ray(Next(loc, d), d, m)) == color
    ensures Brackets(g, loc, d, color, m + 1)
  {
    RayNext(loc, d, m);
    forall s | 1 <= s < m + 1 ensures At(g, Ray(loc, d, s)) == 1 - color {
      RayNext(loc, d, s - 1);
    }
  }

  /** Only the disk just past the run of opponent disks next to loc can bracket it. */
  lemma BracketsMatchRun(g: Grid, n: int, loc: Loc, d: Dir, color: int, k: int)
    requires IsGrid(g, n) && IsCompass(d) && IsPlayer(color) && Brackets(g, loc, d, color, k)
    ensures k == RunLength(g, n, Next(loc, d), d, 1 - color) + 1
  {
    var p := Next(loc, d);
    forall t | 0 <= t < k - 1 ensures At(g, Ray(p, d, t)) == 1 - color {
      RayNext(loc, d, t);
    }
    RayNext(loc, d, k - 1);
    RunLengthExact(g, n, p, d, 1 - color, k - 1);
  }

  /** The members of ds, in their order, along which the scan from loc captures. */
  function CapturingAmong(g: Grid, n: int, loc: Loc, color: int, ds: seq<Dir>): seq<Dir>
    requires IsGrid(g, n) && forall d :: d in ds ==> IsCompass(d)
  {
    if ds == [] then []
    else
      var d := ds[|ds| - 1];
      CapturingAmong(g, n, loc, color, ds[..|ds| - 1])
        + (if Captures(g, n, Next(loc, d), d, color, false) then [d] else [])
  }

  /** The direction list of a location: empty for an occupied location, otherwise the
      capturing directions in the order of `Directions`. */
  function LegalDirections(g: Grid, n: int, loc: Loc, color: int): seq<Dir>
    requires IsGrid(g, n) && InBounds(n, loc)
  {
    DirectionsAreCompass();
    if g[loc.0][loc.1] != EMPTY then [] else CapturingAmong(g, n, loc, color, Directions)
  }

  /** The directions CapturingAmong lists from the first k entries of `Directions`: exactly
      the capturing ones, each before position k, in the order of `Directions`. */
  ghost predicate ListsCapturing(g: Grid, n: int, loc: Loc, color: int, k: nat, r: seq<Dir>)
    requires IsGrid(g, n) && k <= |Directions|
  {
    && (forall d :: d in r <==> d in Directions[..k] && IsCompass(d) && Captures(g, n, Next(loc, d), d, color, false))
    && (forall a :: 0 <= a < |r| ==> DirIndex(r[a]) < k)
    && (forall a, b :: 0 <= a < b < |r| ==> DirIndex(r[a]) < DirIndex(r[b]))
  }

  lemma {:induction false} CapturingAmongDirections(g: Grid, n: int, loc: Loc, color: int, k: nat)
    requires IsGrid(g, n) && k <= |Directions|
    ensures (DirectionsAreCompass(); ListsCapturing(g, n, loc, color, k, CapturingAmong(g, n, loc, color, Directions[..k])))
  {
    DirectionsAreCompass();
    if k > 0 {
      assert Directions[..k][..k - 1] == Directions[..k - 1];
      CapturingAmongDirections(g, n, loc, color, k - 1);
      var d := Directions[k - 1];
      CapturingStep(g, n, loc, color, k, CapturingAmong(g, n, loc, color, Directions[..k - 1]),
        Captures(g, n, Next(loc, d), d, color, false));
    }
  }

  /** The step of CapturingAmongDirections: the k-th direction, appended when it captures. */
  lemma CapturingStep(g: Grid, n: int, loc: Loc, color: int, k: nat, r: seq<Dir>, c: bool)
    requires IsGrid(g, n) && 0 < k <= |Directions| && ListsCapturing(g, n, loc, color, k - 1, r)
    requires c == Captures(g, n, Next(loc, Directions[k - 1]), Directions[k - 1], color, false)
    ensures ListsCapturing(g, n, loc, color, k, r + (if c then [Directions[k - 1]] else []))
  {
    DirectionsAreCompass();
    assert Directions[..k] == Directions[..k - 1] + [Directions[k - 1]];
  }

  /** A direction is listed exactly when the location is empty and the direction brackets a run
      of opponent disks; the list follows the order of `Directions` without repetition. */
  lemma LegalDirectionsSpec(g: Grid, n: int, loc: Loc, color: int)
    requires IsGrid(g, n) && ValidCells(g) && IsPlayer(color) && InBounds(n, loc)
    ensures var r := LegalDirections(g, n, loc, color);
      && (g[loc.0][loc.1] != EMPTY ==> r == [])
      && (forall d :: d in r <==> g[loc.0][loc.1] == EMPTY && d in Directions && exists k :: Brackets(g, loc, d, color, k))
      && (forall a, b :: 0 <= a < b < |r| ==> DirIndex(r[a]) < DirIndex(r[b]))
  {
    DirectionsAreCompass();
    CapturingAmongDirections(g, n, loc, color, |Directions|);
    assert Directions[..|Directions|] == Directions;
    forall d | d in Directions {
      CapturesIffBrackets(g, n, loc, d, color);
    }
  }

  // ---------------------------------------------------------------------------
  // Enumerating legal actions

  /** The dictionary entry, if any, of the cell p. */
  function CellAction(g: Grid, n: int, color: int, p: Loc): seq<Action>
    requires IsGrid(g, n) && InBounds(n, p)
  {
    if g[p.0][p.1] == EMPTY then
      var dirs := LegalDirections(g, n, p, color);
      if |dirs| > 0 then [Action(p, dirs)] else []
    else []
  }

  /** The entries of cells (i, 0) .. (i, j - 1), in that order. */
  function RowActions(g: Grid, n: int, color: int, i: int, j: int): seq<Action>
    requires IsGrid(g, n) && 0 <= i < n && 0 <= j <= n
    decreases j
  {
    if j == 0 then [] else RowActions(g, n, color, i, j - 1) + CellAction(g, n, color, (i, j - 1))
  }

  /** The entries of rows 0 .. i - 1, in row-major order. */
  function ActionsBefore(g: Grid, n: int, color: int, i: int): seq<Action>
    requires IsGrid(g, n) && 0 <= i <= n
    decreases i
  {
    if i == 0 then [] else ActionsBefore(g, n, color, i - 1) + RowActions(g, n, color, i - 1, n)
  }

  /** The legal-action dictionary of `color`, as its entries in insertion (row-major) order. */
  function LegalActions(g: Grid, n: int, color: int): seq<Action>
    requires IsGrid(g, n)
  {
    ActionsBefore(g, n, color, n)
  }

  predicate RowMajorBefore(p: Loc, q: Loc) {
    p.0 < q.0 || (p.0 == q.0 && p.1 < q.1)
  }

  /** Every entry is an empty cell with its non-empty direction list. */
  ghost predicate EntriesSound(g: Grid, n: int, color: int, acts: seq<Action>)
    requires IsGrid(g, n)
  {
    forall a :: 0 <= a < |acts| ==>
      InBounds(n, acts[a].loc) && At(g, acts[a].loc) == EMPTY
      && acts[a].dirs == LegalDirections(g, n, acts[a].loc, color) && acts[a].dirs != []
  }

  /** Keys strictly increase in row-major order, so no key occurs twice. */
  ghost predicate RowMajorSorted(acts: seq<Action>) {
    forall a, b :: 0 <= a < b < |acts| ==> RowMajorBefore(acts[a].loc, acts[b].loc)
  }

  /** p is a key of acts. */
  ghost predicate HasKey(acts: seq<Action>, p: Loc) {
    exists a :: 0 <= a < |acts| && acts[a].loc == p
  }

  /** p is an empty cell with at least one capturing direction. */
  ghost predicate IsLegalMove(g: Grid, n: int, color: int, p: Loc)
    requires IsGrid(g, n)
  {
    InBounds(n, p) && g[p.0][p.1] == EMPTY && LegalDirections(g, n, p, color) != []
  }

  /** Two sound, sorted lists whose keys all come one before the other join into a sound, sorted list. */
  lemma AppendSoundSorted(g: Grid, n: int, color: int, xs: seq<Action>, ys: seq<Action>)
    requires IsGrid(g, n)
    requires EntriesSound(g, n, color, xs) && RowMajorSorted(xs)
    requires EntriesSound(g, n, color, ys) && RowMajorSorted(ys)
    requires forall a, b :: 0 <= a < |xs| && 0 <= b < |ys| ==> RowMajorBefore(xs[a].loc, ys[b].loc)
    ensures EntriesSound(g, n, color, xs + ys) && RowMajorSorted(xs + ys)
  {
    var zs := xs + ys;
    forall a | 0 <= a < |zs|
      ensures InBounds(n, zs[a].loc) && At(g, zs[a].loc) == EMPTY
      ensures zs[a].dirs == LegalDirections(g, n, zs[a].loc, color) && zs[a].dirs != []
    {
      if a >= |xs| {
        assert zs[a] == ys[a - |xs|];
      }
    }
    forall a, b | 0 <= a < b < |zs| ensures RowMajorBefore(zs[a].loc, zs[b].loc) {
      if b < |xs| {
      } else if a >= |xs| {
        assert zs[a] == ys[a - |xs|] && zs[b] == ys[b - |xs|];
      } else {
        assert zs[b] == ys[b - |xs|];
      }
    }
  }

  /** Every key lies in rows r0 .. r1 - 1 and columns c0 .. c1 - 1. */
  predicate KeysWithin(acts: seq<Action>, r0: int, r1: int, c0: int, c1: int) {
    forall a :: 0 <= a < |acts| ==> r0 <= acts[a].loc.0 < r1 && c0 <= acts[a].loc.1 < c1
  }

  lemma AppendKeysWithin(xs: seq<Action>, ys: seq<Action>, r0: int, r1: int, c0: int, c1: int)
    requires KeysWithin(xs, r0, r1, c0, c1) && KeysWithin(ys, r0, r1, c0, c1)
    ensures KeysWithin(xs + ys, r0, r1, c0, c1)
  {
    forall a | 0 <= a < |xs + ys| ensures r0 <= (xs + ys)[a].loc.0 < r1 && c0 <= (xs + ys)[a].loc.1 < c1 {
      if a >= |xs| {
        assert (xs + ys)[a] == ys[a - |xs|];
      }
    }
  }

  /** Joining lists keeps the keys of both. */
  lemma AppendKeys(xs: seq<Action>, ys: seq<Action>, p: Loc)
    ensures HasKey(xs + ys, p) <==> HasKey(xs, p) || HasKey(ys, p)
  {
    var zs := xs + ys;
    if HasKey(ys, p) {
      var a :| 0 <= a < |ys| && ys[a].loc == p;
      assert zs[|xs| + a] == ys[a];
    }
    if HasKey(xs, p) {
      var a :| 0 <= a < |xs| && xs[a].loc == p;
      assert zs[a] == xs[a];
    }
    if HasKey(zs, p) {
      var a :| 0 <= a < |zs| && zs[a].loc == p;
      if a >= |xs| {
        assert ys[a - |xs|] == zs[a];
      } else {
        assert xs[a] == zs[a];
      }
    }
  }

  /** The entry of one cell is sound and is present exactly when the move is legal. */
  lemma CellActionSpec(g: Grid, n: int, color: int, p: Loc)
    requires IsGrid(g, n) && InBounds(n, p)
    ensures var acts := CellAction(g, n, color, p);
      && EntriesSound(g, n, color, acts) && RowMajorSorted(acts)
      && KeysWithin(acts, p.0, p.0 + 1, p.1, p.1 + 1)
      && (IsLegalMove(g, n, color, p) <==> HasKey(acts, p))
  {
    var acts := CellAction(g, n, color, p);
    if IsLegalMove(g, n, color, p) {
      assert acts[0].loc == p;
    }
  }

  /** acts lists, soundly and in row-major order, exactly the legal moves among (i, 0) .. (i, j - 1). */
  ghost predicate RowListing(g: Grid, n: int, color: int, i: int, j: int, acts: seq<Action>)
    requires IsGrid(g, n)
  {
    && EntriesSound(g, n, color, acts) && RowMajorSorted(acts)
    && KeysWithin(acts, i, i + 1, 0, j)
    && (forall c :: 0 <= c < j ==> (IsLegalMove(g, n, color, (i, c)) <==> HasKey(acts, (i, c))))
  }

  /** acts lists, soundly and in row-major order, exactly the legal moves in rows 0 .. i - 1. */
  ghost predicate RowsListing(g: Grid, n: int, color: int, i: int, acts: seq<Action>)
    requires IsGrid(g, n)
  {
    && EntriesSound(g, n, color, acts) && RowMajorSorted(acts)
    && KeysWithin(acts, 0, i, 0, n)
    && (forall p: Loc :: 0 <= p.0 < i && 0 <= p.1 < n ==> (IsLegalMove(g, n, color, p) <==> HasKey(acts, p)))
  }

  lemma RowListingStep(g: Grid, n: int, color: int, i: int, j: int, prev: seq<Action>, cell: seq<Action>)
    requires IsGrid(g, n) && 0 <= i < n && 0 < j <= n
    requires RowListing(g, n, color, i, j - 1, prev)
    requires EntriesSound(g, n, color, cell) && RowMajorSorted(cell) && KeysWithin(cell, i, i + 1, j - 1, j)
    requires IsLegalMove(g, n, color, (i, j - 1)) <==> HasKey(cell, (i, j - 1))
    ensures RowListing(g, n, color, i, j, prev + cell)
  {
    AppendSoundSorted(g, n, color, prev, cell);
    AppendKeysWithin(prev, cell, i, i + 1, 0, j);
    forall c | 0 <= c < j ensures IsLegalMove(g, n, color, (i, c)) <==> HasKey(prev + cell, (i, c)) {
      AppendKeys(prev, cell, (i, c));
    }
  }

  lemma RowsListingStep(g: Grid, n: int, color: int, i: int, prev: seq<Action>, row: seq<Action>)
    requires IsGrid(g, n) && 0 < i <= n
    requires RowsListing(g, n, color, i - 1, prev)
    requires RowListing(g, n, color, i - 1, n, row)
    ensures RowsListing(g, n, color, i, prev + row)
  {
    AppendSoundSorted(g, n, color, prev, row);
    AppendKeysWithin(prev, row, 0, i, 0, n);
    forall p: Loc | 0 <= p.0 < i && 0 <= p.1 < n ensures IsLegalMove(g, n, color, p) <==> HasKey(prev + row, p) {
      AppendKeys(prev, row, p);
    }
  }

  lemma {:induction false} RowActionsSpec(g: Grid, n: int, color: int, i: int, j: int)
    requires IsGrid(g, n) && 0 <= i < n && 0 <= j <= n
    ensures RowListing(g, n, color, i, j, RowActions(g, n, color, i, j))
    decreases j
  {
    if j > 0 {
      RowActionsSpec(g, n, color, i, j - 1);
      RowActionsStep(g, n, color, i, j);
    }
  }

  /** The step of RowActionsSpec: the entry of cell (i, j - 1) extends the listing of the
      first j - 1 cells of row i. */
  lemma RowActionsStep(g: Grid, n: int, color: int, i: int, j: int)
    requires IsGrid(g, n) && 0 <= i < n && 0 < j <= n
    requires RowListing(g, n, color, i, j - 1, RowActions(g, n, color, i, j - 1))
    ensures RowListing(g, n, color, i, j, RowActions(g, n, color, i, j))
  {
    CellActionSpec(g, n, color, (i, j - 1));
    RowListingStep(g, n, color, i, j, RowActions(g, n, color, i, j - 1), CellAction(g, n, color, (i, j - 1)));
  }

  lemma {:induction false} ActionsBeforeSpec(g: Grid, n: int, color: int, i: int)
    requires IsGrid(g, n) && 0 <= i <= n
    ensures RowsListing(g, n, color, i, ActionsBefore(g, n, color, i))
    decreases i
  {
    if i > 0 {
      ActionsBeforeSpec(g, n, color, i - 1);
      ActionsBeforeStep(g, n, color, i);
    }
  }

  /** The step of ActionsBeforeSpec: the entries of row i - 1 extend the listing of the rows
      above it. */
  lemma ActionsBeforeStep(g: Grid, n: int, color: int, i: int)
    requires IsGrid(g, n) && 0 < i <= n
    requires RowsListing(g, n, color, i - 1, ActionsBefore(g, n, color, i - 1))
    ensures RowsListing(g, n, color, i, ActionsBefore(g, n, color, i))
  {
    RowActionsSpec(g, n, color, i - 1, n);
    RowsListingStep(g, n, color, i, ActionsBefore(g, n, color, i - 1), RowActions(g, n, color, i - 1, n));
  }

  /** The dictionary holds exactly the legal moves as keys, each with its direction list,
      inserted in row-major order. */
  lemma LegalActionsSpec(g: Grid, n: int, color: int)
    requires IsGrid(g, n)
    ensures var acts := LegalActions(g, n, color);
      && EntriesSound(g, n, color, acts) && RowMajorSorted(acts)
      && (forall p :: IsLegalMove(g, n, color, p) <==> HasKey(acts, p))
  {
    var acts := LegalActions(g, n, color);
    ActionsBeforeSpec(g, n, color, n);
    forall p: Loc | HasKey(acts, p) ensures IsLegalMove(g, n, color, p) {
      var a :| 0 <= a < |acts| && acts[a].loc == p;
    }
  }

  // ---------------------------------------------------------------------------
  // Applying a move

  /** The flip walk from p along d: opponent disks become `color` until an empty cell, an own
      disk or the edge is reached. */
  function FlipRay(g: Grid, n: int, p: Loc, d: Dir, color: int): (r: Grid)
    requires IsGrid(g, n) && IsCompass(d)
    ensures IsGrid(r, n)
    decreases StepsLeft(n, p, d)
  {
    if !InBounds(n, p) then g
    else if g[p.0][p.1] == EMPTY then g
    else if g[p.0][p.1] == color then g
    else
      var g' := if g[p.0][p.1] == 1 - color then SetCell(g, p, color) else g;
      FlipRay(g', n, Next(p, d), d, color)
  }

  /** The flip walks of all supplied directions from loc, one after another. */
  function FlipAll(g: Grid, n: int, loc: Loc, dirs: seq<Dir>, color: int): (r: Grid)
    requires IsGrid(g, n) && forall d :: d in dirs ==> IsCompass(d)
    ensures IsGrid(r, n)
    decreases |dirs|
  {
    if dirs == [] then g
    else FlipAll(FlipRay(g, n, Next(loc, dirs[0]), dirs[0], color), n, loc, dirs[1..], color)
  }

  /** A move: the disk placed at loc, then the flip walks along the supplied directions. */
  function ApplyAction(g: Grid, n: int, loc: Loc, dirs: seq<Dir>, color: int): (r: Grid)
    requires IsGrid(g, n) && InBounds(n, loc) && forall d :: d in dirs ==> IsCompass(d)
    ensures IsGrid(r, n)
  {
    FlipAll(SetCell(g, loc, color), n, loc, dirs, color)
  }

  /** The flip walk turns exactly the run of opponent disks starting at p into `color`. */
  lemma {:induction false} FlipRayEffect(g: Grid, n: int, p: Loc, d: Dir, color: int)
    requires IsGrid(g, n) && ValidCells(g) && IsCompass(d) && IsPlayer(color)
    ensures var r := FlipRay(g, n, p, d, color); var m := RunLength(g, n, p, d, 1 - color);
      && ValidCells(r)
      && forall q :: At(r, q) == if OnRun(p, d, m, q) then color else At(g, q)
    decreases StepsLeft(n, p, d)
  {
    var r := FlipRay(g, n, p, d, color);
    if InBounds(n, p) && g[p.0][p.1] == 1 - color {
      var g1 := SetCell(g, p, color);
      SetCellKeepsValid(g, n, p, color);
      FlipRayEffect(g1, n, Next(p, d), d, color);
      RunAfterFirstFlip(g, n, p, d, color);
      var m := RunLength(g, n, p, d, 1 - color);
      forall q ensures At(r, q) == if OnRun(p, d, m, q) then color else At(g, q) {
        OnRunStep(p, d, m, q);
      }
    } else {
      assert RunLength(g, n, p, d, 1 - color) == 0;
    }
  }

  /** Flipping the first disk of a run leaves the rest of the run, one cell shorter, behind it. */
  lemma RunAfterFirstFlip(g: Grid, n: int, p: Loc, d: Dir, color: int)
    requires IsGrid(g, n) && IsCompass(d) && IsPlayer(color) && InBounds(n, p) && g[p.0][p.1] == 1 - color
    ensures RunLength(SetCell(g, p, color), n, Next(p, d), d, 1 - color) == RunLength(g, n, p, d, 1 - color) - 1
  {
    var g1 := SetCell(g, p, color);
    forall t | 0 <= t ensures At(g1, Ray(Next(p, d), d, t)) == At(g, Ray(Next(p, d), d, t)) {
      RayNext(p, d, t);
      RaysDisjoint(p, d, d, t + 1, t + 1);
    }
    RunLengthFrame(g1, g, n, Next(p, d), d, 1 - color);
  }

  /** The length of the run of opponent disks that the walk along d from loc flips. */
  function RunOf(g: Grid, n: int, loc: Loc, d: Dir, color: int): nat
    requires IsGrid(g, n) && IsCompass(d)
  {
    RunLength(g, n, Next(loc, d), d, 1 - color)
  }

  /** q lies on the run of opponent disks next to loc along one of the directions. */
  ghost predicate Flipped(g: Grid, n: int, loc: Loc, dirs: seq<Dir>, color: int, q: Loc)
    requires IsGrid(g, n) && forall d :: d in dirs ==> IsCompass(d)
  {
    OnSomeRun(loc, dirs, RunsOf(g, n, loc, dirs, color), q)
  }

  /** The run lengths next to loc along each of dirs. */
  function RunsOf(g: Grid, n: int, loc: Loc, dirs: seq<Dir>, color: int): (r: seq<nat>)
    requires IsGrid(g, n) && forall d :: d in dirs ==> IsCompass(d)
    ensures |r| == |dirs| && forall e :: 0 <= e < |dirs| ==> r[e] == RunOf(g, n, loc, dirs[e], color)
  {
    seq(|dirs|, e requires 0 <= e < |dirs| => RunOf(g, n, loc, dirs[e], color))
  }

  /** q lies on the run of runs[e] cells starting next to loc along dirs[e], for some e. */
  ghost predicate OnSomeRun(loc: Loc, dirs: seq<Dir>, runs: seq<int>, q: Loc)
    requires |runs| == |dirs|
  {
    exists e :: 0 <= e < |dirs| && OnRun(Next(loc, dirs[e]), dirs[e], runs[e], q)
  }

  /** After the walk along d0, the run next to loc along d0 is empty, and runs along other
      directions are untouched. */
  lemma RunsAfterFlip(h: Grid, n: int, loc: Loc, d0: Dir, d: Dir, color: int)
    requires IsGrid(h, n) && ValidCells(h) && IsPlayer(color) && IsCompass(d0) && IsCompass(d)
    ensures var h1 := FlipRay(h, n, Next(loc, d0), d0, color);
      RunOf(h1, n, loc, d, color) == if d == d0 then 0 else RunOf(h, n, loc, d, color)
  {
    var h1 := FlipRay(h, n, Next(loc, d0), d0, color);
    var m0 := RunOf(h, n, loc, d0, color);
    FlipRayEffect(h, n, Next(loc, d0), d0, color);
    RayNext(loc, d0, 0);
    if d == d0 {
      if m0 >= 1 {
        OnRunAt(Next(loc, d0), d0, m0, 0);
      }
      RunLengthExact(h1, n, Next(loc, d), d, 1 - color, 0);
    } else {
      forall t | 0 <= t ensures At(h1, Ray(Next(loc, d), d, t)) == At(h, Ray(Next(loc, d), d, t)) {
        var q := Ray(Next(loc, d), d, t);
        RayNext(loc, d, t);
        if OnRun(Next(loc, d0), d0, m0, q) {
          var s := StepIndex(Next(loc, d0), d0, q);
          RayNext(loc, d0, s);
          RaysDisjoint(loc, d, d0, t + 1, s + 1);
        }
      }
      RunLengthFrame(h1, h, n, Next(loc, d), d, 1 - color);
    }
  }

  /** The cells flipped along dirs are those of the first direction's run together with those
      flipped along the remaining directions on the grid after the first walk. */
  lemma FlippedFirst(h: Grid, n: int, loc: Loc, dirs: seq<Dir>, color: int, q: Loc)
    requires IsGrid(h, n) && ValidCells(h) && IsPlayer(color)
    requires forall d :: d in dirs ==> IsCompass(d)
    requires dirs != []
    ensures var h1 := FlipRay(h, n, Next(loc, dirs[0]), dirs[0], color);
      (Flipped(h, n, loc, dirs, color, q) <==>
        OnRun(Next(loc, dirs[0]), dirs[0], RunOf(h, n, loc, dirs[0], color), q) || Flipped(h1, n, loc, dirs[1..], color, q))
  {
    var h1 := FlipRay(h, n, Next(loc, dirs[0]), dirs[0], color);
    var r := RunsOf(h, n, loc, dirs, color);
    var r1 := RunsOf(h1, n, loc, dirs[1..], color);
    forall e | 1 <= e < |dirs| ensures r1[e - 1] == if dirs[e] == dirs[0] then 0 else r[e] {
      assert dirs[1..][e - 1] == dirs[e];
      RunsAfterFlip(h, n, loc, dirs[0], dirs[e], color);
    }
    OnSomeRunShift(loc, dirs, r, r1, q);
  }

  /** Splitting off the first direction: q is on one of the runs r exactly when it is on the
      first one or on one of the runs r1 of the remaining directions, where r1 drops the runs
      along the first direction and keeps the others. */
  lemma OnSomeRunShift(loc: Loc, dirs: seq<Dir>, r: seq<int>, r1: seq<int>, q: Loc)
    requires dirs != [] && |r| == |dirs| && |r1| == |dirs| - 1
    requires forall e :: 0 <= e < |dirs| && dirs[e] == dirs[0] ==> r[e] == r[0]
    requires forall e :: 1 <= e < |dirs| ==> r1[e - 1] == if dirs[e] == dirs[0] then 0 else r[e]
    ensures OnSomeRun(loc, dirs, r, q) <==>
      OnRun(Next(loc, dirs[0]), dirs[0], r[0], q) || OnSomeRun(loc, dirs[1..], r1, q)
  {
    var rest := dirs[1..];
    if OnSomeRun(loc, dirs, r, q) && !OnRun(Next(loc, dirs[0]), dirs[0], r[0], q) {
      var e :| 0 <= e < |dirs| && OnRun(Next(loc, dirs[e]), dirs[e], r[e], q);
      assert e > 0 && dirs[e] == rest[e - 1];
      assert OnRun(Next(loc, rest[e - 1]), rest[e - 1], r1[e - 1], q);
    }
    if OnSomeRun(loc, rest, r1, q) {
      var e :| 0 <= e < |rest| && OnRun(Next(loc, rest[e]), rest[e], r1[e], q);
      assert rest[e] == dirs[e + 1];
      assert OnRun(Next(loc, dirs[e + 1]), dirs[e + 1], r[e + 1], q);
    }
  }

  /** A run starting next to loc never contains loc. */
  lemma RunAvoidsStart(loc: Loc, d: Dir, m: int)
    requires IsCompass(d)
    ensures !OnRun(Next(loc, d), d, m, loc)
  {
    if OnRun(Next(loc, d), d, m, loc) {
      var s := StepIndex(Next(loc, d), d, loc);
      RayNext(loc, d, s);
      RaysDisjoint(loc, d, d, s + 1, s + 1);
    }
  }

  /** The walks along dirs, started with the mover's disk at loc, turn exactly the cells on
      the opponent runs next to loc into `color`. */
  lemma {:induction false} FlipAllEffect(h: Grid, n: int, loc: Loc, dirs: seq<Dir>, color: int)
    requires IsGrid(h, n) && ValidCells(h) && IsPlayer(color) && InBounds(n, loc) && At(h, loc) == color
    requires forall d :: d in dirs ==> IsCompass(d)
    ensures var r := FlipAll(h, n, loc, dirs, color);
      && ValidCells(r)
      && forall q :: At(r, q) == if Flipped(h, n, loc, dirs, color, q) then color else At(h, q)
    decreases |dirs|
  {
    if dirs != [] {
      var d0 := dirs[0];
      var p0 := Next(loc, d0);
      var h1 := FlipRay(h, n, p0, d0, color);
      var m0 := RunOf(h, n, loc, d0, color);
      var rest := dirs[1..];
      FlipRayEffect(h, n, p0, d0, color);
      RunAvoidsStart(loc, d0, m0);
      FlipAllEffect(h1, n, loc, rest, color);
      forall q ensures Flipped(h, n, loc, dirs, color, q) <==> OnRun(p0, d0, m0, q) || Flipped(h1, n, loc, rest, color, q) {
        FlippedFirst(h, n, loc, dirs, color, q);
      }
    }
  }

  /** A move sets loc and the runs of opponent disks next to it along the supplied directions
      to the mover's colour, and leaves every other cell as it was. */
  lemma ApplyActionEffect(g: Grid, n: int, loc: Loc, dirs: seq<Dir>, color: int)
    requires IsGrid(g, n) && ValidCells(g) && IsPlayer(color) && InBounds(n, loc)
    requires forall d :: d in dirs ==> IsCompass(d)
    ensures var r := ApplyAction(g, n, loc, dirs, color);
      && ValidCells(r)
      && forall q :: At(r, q) == if q == loc || Flipped(g, n, loc, dirs, color, q) then color else At(g, q)
  {
    var h := SetCell(g, loc, color);
    SetCellKeepsValid(g, n, loc, color);
    FlipAllEffect(h, n, loc, dirs, color);
    forall e | 0 <= e < |dirs| ensures RunOf(h, n, loc, dirs[e], color) == RunOf(g, n, loc, dirs[e], color) {
      var d := dirs[e];
      forall t | 0 <= t ensures At(h, Ray(Next(loc, d), d, t)) == At(g, Ray(Next(loc, d), d, t)) {
        RayNext(loc, d, t);
        RaysDisjoint(loc, d, d, t + 1, t + 1);
      }
      RunLengthFrame(h, g, n, Next(loc, d), d, 1 - color);
    }
    assert RunsOf(h, n, loc, dirs, color) == RunsOf(g, n, loc, dirs, color);
  }

  /** A move changes a cell other than loc only from the opponent's colour to the mover's,
      and only on a ray from loc along a supplied direction. */
  lemma ApplyActionOnlyFlipsOpponents(g: Grid, n: int, loc: Loc, dirs: seq<Dir>, color: int)
    requires IsGrid(g, n) && ValidCells(g) && IsPlayer(color) && InBounds(n, loc)
    requires forall d :: d in dirs ==> IsCompass(d)
    ensures var r := ApplyAction(g, n, loc, dirs, color);
      && At(r, loc) == color
      && forall q :: q != loc && At(r, q) != At(g, q) ==>
           At(g, q) == 1 - color && At(r, q) == color
           && exists e, t :: 0 <= e < |dirs| && 1 <= t && q == Ray(loc, dirs[e], t)
  {
    ApplyActionEffect(g, n, loc, dirs, color);
    var r := ApplyAction(g, n, loc, dirs, color);
    forall q | q != loc && At(r, q) != At(g, q)
      ensures At(g, q) == 1 - color && exists e, t :: 0 <= e < |dirs| && 1 <= t && q == Ray(loc, dirs[e], t)
    {
      var e :| 0 <= e < |dirs| && OnRun(Next(loc, dirs[e]), dirs[e], RunOf(g, n, loc, dirs[e], color), q);
      var d := dirs[e];
      var s := StepIndex(Next(loc, d), d, q);
      RayNext(loc, d, s);
      assert q == Ray(loc, d, s + 1);
    }
  }

  /** Every cell strictly inside a bracket lies on the run of opponent disks next to loc. */
  lemma BracketedOnRun(g: Grid, n: int, loc: Loc, d: Dir, color: int, k: int, m: int)
    requires IsGrid(g, n) && ValidCells(g) && IsPlayer(color) && IsCompass(d)
    requires Brackets(g, loc, d, color, k) && 1 <= m < k
    ensures OnRun(Next(loc, d), d, RunOf(g, n, loc, d, color), Ray(loc, d, m))
  {
    BracketsMatchRun(g, n, loc, d, color, k);
    OnRunBetween(loc, d, k, m);
  }

  /** The m-th cell from loc, for 1 <= m < k, is on the run of k - 1 cells starting next to loc. */
  lemma OnRunBetween(loc: Loc, d: Dir, k: int, m: int)
    requires IsCompass(d) && 1 <= m < k
    ensures OnRun(Next(loc, d), d, k - 1, Ray(loc, d, m))
  {
    RayNext(loc, d, m - 1);
    OnRunAt(Next(loc, d), d, k - 1, m - 1);
  }

  /** For a direction that brackets a run (a legal direction), the move flips every cell strictly
      between loc and the bracketing own disk. */
  lemma ApplyActionFlipsBracketed(g: Grid, n: int, loc: Loc, dirs: seq<Dir>, color: int, e: int, k: int)
    requires IsGrid(g, n) && ValidCells(g) && IsPlayer(color) && InBounds(n, loc)
    requires forall d :: d in dirs ==> IsCompass(d)
    requires 0 <= e < |dirs| && Brackets(g, loc, dirs[e], color, k)
    ensures forall m :: 1 <= m < k ==> At(ApplyAction(g, n, loc, dirs, color), Ray(loc, dirs[e], m)) == color
  {
    var d := dirs[e];
    ApplyActionEffect(g, n, loc, dirs, color);
    forall m | 1 <= m < k ensures Flipped(g, n, loc, dirs, color, Ray(loc, d, m)) {
      BracketedOnRun(g, n, loc, d, color, k, m);
    }
  }

  lemma {:induction false} FlipRayKeepsEmpty(g: Grid, n: int, p: Loc, d: Dir, color: int)
    requires IsGrid(g, n) && IsCompass(d) && IsPlayer(color)
    ensures Count(FlipRay(g, n, p, d, color), EMPTY) == Count(g, EMPTY)
    decreases StepsLeft(n, p, d)
  {
    if InBounds(n, p) && g[p.0][p.1] != EMPTY && g[p.0][p.1] != color {
      var g' := if g[p.0][p.1] == 1 - color then SetCell(g, p, color) else g;
      if g[p.0][p.1] == 1 - color {
        CountSetCell(g, p, color, EMPTY);
      }
      FlipRayKeepsEmpty(g', n, Next(p, d), d, color);
    }
  }

  lemma {:induction false} FlipAllKeepsEmpty(g: Grid, n: int, loc: Loc, dirs: seq<Dir>, color: int)
    requires IsGrid(g, n) && IsPlayer(color) && forall d :: d in dirs ==> IsCompass(d)
    ensures Count(FlipAll(g, n, loc, dirs, color), EMPTY) == Count(g, EMPTY)
    decreases |dirs|
  {
    if dirs != [] {
      FlipRayKeepsEmpty(g, n, Next(loc, dirs[0]), dirs[0], color);
      FlipAllKeepsEmpty(FlipRay(g, n, Next(loc, dirs[0]), dirs[0], color), n, loc, dirs[1..], color);
    }
  }

  /** A move on an empty location fills exactly one free cell, keeps the grid valid, and the
      three counts still add up to n * n. */
  lemma ApplyActionCounts(g: Grid, n: int, loc: Loc, dirs: seq<Dir>, color: int)
    requires IsGrid(g, n) && ValidCells(g) && IsPlayer(color) && InBounds(n, loc) && g[loc.0][loc.1] == EMPTY
    requires forall d :: d in dirs ==> IsCompass(d)
    ensures var r := ApplyAction(g, n, loc, dirs, color);
      && ValidCells(r)
      && Count(r, EMPTY) == Count(g, EMPTY) - 1
      && Count(r, EMPTY) + Count(r, BLACK) + Count(r, WHITE) == n * n
  {
    var r := ApplyAction(g, n, loc, dirs, color);
    ApplyActionEffect(g, n, loc, dirs, color);
    CountSetCell(g, loc, color, EMPTY);
    FlipAllKeepsEmpty(SetCell(g, loc, color), n, loc, dirs, color);
    CountTotal(r, n);
  }

  // ---------------------------------------------------------------------------
  // The end-of-game test

  /** The engine's end-of-game test: no free cell is left, or one colour has no disk. */
  predicate Finished(g: Grid) {
    Count(g, EMPTY) == 0 || Count(g, BLACK) == 0 || Count(g, WHITE) == 0
  }

  /** A value held by some cell is counted at least once. */
  lemma CountPositive(g: Grid, p: Loc, v: int)
    requires 0 <= p.0 < |g| && 0 <= p.1 < |g[p.0]| && g[p.0][p.1] == v
    ensures Count(g, v) >= 1
  {
    CountSetCell(g, p, v + 1, v);
  }

  /** When the test reports the end, the side to move indeed has no legal action: a move
      needs a free cell, an opponent disk to capture and an own disk to bracket it. */
  lemma FinishedMeansNoMoves(g: Grid, n: int, color: int)
    requires IsGrid(g, n) && ValidCells(g) && IsPlayer(color) && Finished(g)
    ensures LegalActions(g, n, color) == []
  {
    var acts := LegalActions(g, n, color);
    if acts != [] {
      LegalActionsApplicable(g, n, color, 0);
      var loc := acts[0].loc;
      var d := acts[0].dirs[0];
      LegalActionsSpec(g, n, color);
      assert acts[0].dirs == LegalDirections(g, n, loc, color) && d in acts[0].dirs;
      LegalDirectionsSpec(g, n, loc, color);
      var k :| Brackets(g, loc, d, color, k);
      CountPositive(g, loc, EMPTY);
      var own := Ray(loc, d, k);
      var opp := Ray(loc, d, 1);
      assert At(g, own) == color && At(g, opp) == 1 - color;
      CountPositive(g, own, color);
      CountPositive(g, opp, 1 - color);
      assert false;
    }
  }

  // ---------------------------------------------------------------------------
  // The random-start opening

  /** The outcome of an opening: the grid before its last ply, the grid after it, and
      how many legal actions each ply offered. */
  datatype OpeningPlay = OpeningPlay(before: Grid, after: Grid, offered: seq<nat>)

  /** The entries of a legal-action list have in-range keys and compass directions, so any
      of them can be applied. */
  lemma LegalActionsApplicable(g: Grid, n: int, color: int, k: int)
    requires IsGrid(g, n) && 0 <= k < |LegalActions(g, n, color)|
    ensures var act := LegalActions(g, n, color)[k];
      && InBounds(n, act.loc) && At(g, act.loc) == EMPTY && act.dirs != []
      && forall d :: d in act.dirs ==> d in Directions && IsCompass(d)
  {
    var act := LegalActions(g, n, color)[k];
    LegalActionsSpec(g, n, color);
    DirectionsAreCompass();
    CapturingAmongDirections(g, n, act.loc, color, |Directions|);
    assert Directions[..|Directions|] == Directions;
  }

  /** The grid after the action at index k of the legal-action list of `color`. */
  function ApplyPick(g: Grid, n: int, color: int, k: int): (r: Grid)
    requires IsGrid(g, n) && ValidCells(g) && IsPlayer(color) && 0 <= k < |LegalActions(g, n, color)|
    ensures IsGrid(r, n) && ValidCells(r) && Count(r, EMPTY) == Count(g, EMPTY) - 1
  {
    var act := LegalActions(g, n, color)[k];
    LegalActionsApplicable(g, n, color, k);
    ApplyActionCounts(g, n, act.loc, act.dirs, color);
    ApplyAction(g, n, act.loc, act.dirs, color)
  }

  /** Plays picks[0], picks[1], ... as the index of the action taken from the legal-action
      list of the side to move, sides alternating from `color`; None when a pick is not an
      index of its list. `before` is the grid before the latest ply played so far. */
  function PlayOpening(g: Grid, n: int, picks: seq<nat>, color: int, before: Grid): Option<OpeningPlay>
    requires IsGrid(g, n) && ValidCells(g) && IsPlayer(color)
    decreases |picks|
  {
    if picks == [] then Some(OpeningPlay(before, g, []))
    else
      var acts := LegalActions(g, n, color);
      if picks[0] >= |acts| then None
      else
        Prepend(PlayOpening(ApplyPick(g, n, color, picks[0]), n, picks[1..], 1 - color, g), |acts|)
  }

  /** An opening with one more ply offering l actions in front. */
  function Prepend(o: Option<OpeningPlay>, l: nat): Option<OpeningPlay> {
    match o
    case None => None
    case Some(x) => Some(OpeningPlay(x.before, x.after, [l] + x.offered))
  }

  /** The first ply of an opening either fails or is followed by the rest of the opening on
      the grid it produced. */
  lemma PlayOpeningCons(g: Grid, n: int, p: nat, rest: seq<nat>, color: int, before: Grid)
    requires IsGrid(g, n) && ValidCells(g) && IsPlayer(color)
    ensures var acts := LegalActions(g, n, color);
      PlayOpening(g, n, [p] + rest, color, before)
        == if p < |acts| then Prepend(PlayOpening(ApplyPick(g, n, color, p), n, rest, 1 - color, g), |acts|) else None
  {
    assert ([p] + rest)[1..] == rest;
  }

  /** A played opening took one in-range pick per ply, each ply filling one free cell, and
      it leaves a valid grid. */
  lemma {:induction false} PlayOpeningSpec(g: Grid, n: int, picks: seq<nat>, color: int, before: Grid)
    requires IsGrid(g, n) && ValidCells(g) && IsPlayer(color)
    ensures var r := PlayOpening(g, n, picks, color, before);
      r.Some? ==>
        && |r.value.offered| == |picks|
        && (forall k :: 0 <= k < |picks| ==> picks[k] < r.value.offered[k])
        && IsGrid(r.value.after, n) && ValidCells(r.value.after)
        && Count(r.value.after, EMPTY) == Count(g, EMPTY) - |picks|
    decreases |picks|
  {
    if picks != [] {
      var acts := LegalActions(g, n, color);
      if picks[0] < |acts| {
        var g1 := ApplyPick(g, n, color, picks[0]);
        PlayOpeningSpec(g1, n, picks[1..], 1 - color, g);
        PrependPicks(PlayOpening(g1, n, picks[1..], 1 - color, g), |acts|, picks, n, Count(g1, EMPTY) + 1);
      }
    }
  }

  /** What PlayOpeningSpec states of an opening, carried over to the opening with one more ply
      in front whose pick is in range. */
  lemma PrependPicks(o: Option<OpeningPlay>, l: nat, picks: seq<nat>, n: int, free: int)
    requires picks != [] && picks[0] < l
    requires o.Some? ==>
      && |o.value.offered| == |picks| - 1
      && (forall k :: 0 <= k < |picks| - 1 ==> picks[1..][k] < o.value.offered[k])
      && IsGrid(o.value.after, n) && ValidCells(o.value.after)
      && Count(o.value.after, EMPTY) == free - 1 - (|picks| - 1)
    ensures var r := Prepend(o, l);
      r.Some? ==>
        && |r.value.offered| == |picks|
        && (forall k :: 0 <= k < |picks| ==> picks[k] < r.value.offered[k])
        && IsGrid(r.value.after, n) && ValidCells(r.value.after)
        && Count(r.value.after, EMPTY) == free - |picks|
  {
    if o.Some? {
      var r := Prepend(o, l);
      forall k | 0 <= k < |picks| ensures picks[k] < r.value.offered[k] {
        if k > 0 {
          assert picks[k] == picks[1..][k - 1];
        }
      }
    }
  }
}
