/**
 * The board engine: a board object holding the current and the previous grid as
 * N x N integer arrays together with the three disk counts, and the operations
 * that scan it for legal actions, apply a move in place and recount it. Each
 * array is mirrored by a ghost grid value, and every operation is proved
 * against the functions of the Rules module on those values.
 */
module Engine {
  import opened Wrappers
  import opened Cells
  import opened Rules
  import opened Openings

  /** Why building a board or applying a move fails. */
  datatype BoardError =
    | InvalidBoardSize   // the size is odd or outside 4 .. 12
    | OccupiedLocation   // a move was asked for on a cell that holds a disk
    | NoSuchOpening      // a random-start pick is not an index of its legal-action list

  /** The array holds the grid value g, cell for cell. */
  ghost predicate Mirrors(a: array2<int>, g: Grid)
    reads a
  {
    && |g| == a.Length0
    && (forall i :: 0 <= i < |g| ==> |g[i]| == a.Length1)
    && forall i, j :: 0 <= i < a.Length0 && 0 <= j < a.Length1 ==> a[i, j] == g[i][j]
  }

  /** A fresh array with the same cells. */
  method CopyOf(a: array2<int>) returns (b: array2<int>)
    ensures fresh(b) && b.Length0 == a.Length0 && b.Length1 == a.Length1
    ensures forall i, j :: 0 <= i < a.Length0 && 0 <= j < a.Length1 ==> b[i, j] == a[i, j]
  {
    b := new int[a.Length0, a.Length1]((i, j) reads a => if 0 <= i < a.Length0 && 0 <= j < a.Length1 then a[i, j] else EMPTY);
  }

  /** The number of cells of the array equal to v, counted row by row. */
  method CountValue(a: array2<int>, ghost g: Grid, v: int) returns (c: nat)
    requires Mirrors(a, g)
    ensures c == Count(g, v)
  {
    c := 0;
    for i := 0 to a.Length0
      invariant c == Count(g[..i], v)
    {
      for j := 0 to a.Length1
        invariant c == Count(g[..i], v) + CountRow(g[i][..j], v)
      {
        assert g[i][..j + 1][..j] == g[i][..j];
        if a[i, j] == v {
          c := c + 1;
        }
      }
      assert g[i][..a.Length1] == g[i];
      assert g[..i + 1][..i] == g[..i];
    }
    assert g[..a.Length0] == g;
  }

  /** Writes v into the cell p of the array; r is the grid it then holds. */
  method SetArrayCell(a: array2<int>, ghost g: Grid, n: int, p: Loc, v: int) returns (ghost r: Grid)
    requires IsGrid(g, n) && Mirrors(a, g) && InBounds(n, p)
    modifies a
    ensures IsGrid(r, n) && Mirrors(a, r) && r == SetCell(g, p, v)
  {
    assert |g[p.0]| == a.Length1;
    a[p.0, p.1] := v;
    r := SetCell(g, p, v);
    forall i, j | 0 <= i < a.Length0 && 0 <= j < a.Length1 ensures a[i, j] == r[i][j] {
      assert r[i][j] == At(r, (i, j));
    }
  }

  /** One flip walk of a move: from the cell after loc along d, turns opponent disks into
      `color` until an empty cell, an own disk or the edge; r is the grid afterwards. */
  method FlipWalk(a: array2<int>, ghost c: Grid, n: int, loc: Loc, d: Dir, color: int) returns (ghost r: Grid)
    requires IsGrid(c, n) && Mirrors(a, c) && IsCompass(d)
    modifies a
    ensures IsGrid(r, n) && Mirrors(a, r) && r == FlipRay(c, n, Next(loc, d), d, color)
  {
    r := c;
    var i, j := loc.0 + d.0, loc.1 + d.1;
    while 0 <= i < n && 0 <= j < n
      invariant IsGrid(r, n) && Mirrors(a, r)
      invariant FlipRay(r, n, (i, j), d, color) == FlipRay(c, n, Next(loc, d), d, color)
      decreases StepsLeft(n, (i, j), d)
    {
      if a[i, j] == EMPTY {
        break;
      }
      if a[i, j] == color {
        break;
      }
      if a[i, j] == 1 - color {
        r := SetArrayCell(a, r, n, (i, j), color);
      }
      i, j := i + d.0, j + d.1;
    }
  }

  /** The flip walks of a move, one per direction of dirs, in order. */
  method FlipWalks(a: array2<int>, ghost c: Grid, n: int, loc: Loc, dirs: seq<Dir>, color: int) returns (ghost r: Grid)
    requires IsGrid(c, n) && Mirrors(a, c) && forall d :: d in dirs ==> IsCompass(d)
    modifies a
    ensures IsGrid(r, n) && Mirrors(a, r) && r == FlipAll(c, n, loc, dirs, color)
  {
    r := c;
    for q := 0 to |dirs|
      invariant IsGrid(r, n) && Mirrors(a, r)
      invariant FlipAll(r, n, loc, dirs[q..], color) == FlipAll(c, n, loc, dirs, color)
    {
      var d := dirs[q];
      assert d in dirs;
      r := FlipWalk(a, r, n, loc, d, color);
      assert dirs[q..][1..] == dirs[q + 1..];
    }
    assert dirs[|dirs|..] == [];
  }

  /** The body of a move on the array: the disk of `color` placed on loc, then the flip walks
      along dirs. */
  method PlaceAndFlip(a: array2<int>, ghost g: Grid, n: int, loc: Loc, dirs: seq<Dir>, color: int) returns (ghost c: Grid)
    requires IsGrid(g, n) && Mirrors(a, g) && InBounds(n, loc) && forall d :: d in dirs ==> IsCompass(d)
    modifies a
    ensures IsGrid(c, n) && Mirrors(a, c) && c == ApplyAction(g, n, loc, dirs, color)
  {
    c := SetArrayCell(a, g, n, loc, color);
    c := FlipWalks(a, c, n, loc, dirs, color);
  }

  /** The scan of one direction: walks from the cell after loc along d while on the board,
      failing at an empty cell or at an own disk met before any opponent disk, and
      succeeding at an own disk met after one. */
  method ScanWalk(a: array2<int>, ghost g: Grid, n: int, loc: Loc, d: Dir, color: int) returns (captures: bool)
    requires IsGrid(g, n) && Mirrors(a, g) && IsCompass(d)
    ensures captures == Captures(g, n, Next(loc, d), d, color, false)
  {
    var found := false;
    var i, j := loc.0 + d.0, loc.1 + d.1;
    while 0 <= i < n && 0 <= j < n
      invariant Captures(g, n, (i, j), d, color, found) == Captures(g, n, Next(loc, d), d, color, false)
      decreases StepsLeft(n, (i, j), d)
    {
      if a[i, j] == EMPTY {
        return false;
      }
      if a[i, j] == color && !found {
        return false;
      }
      if a[i, j] == color && found {
        return true;
      }
      if a[i, j] == 1 - color {
        found := true;
      }
      i, j := i + d.0, j + d.1;
    }
    return false;
  }

  /** The directions of `Directions` along which the walk from loc brackets opponent disks
      with an own disk; none when loc is occupied. */
  method ScanDirections(a: array2<int>, ghost g: Grid, n: int, loc: Loc, color: int) returns (dirs: seq<Dir>)
    requires IsGrid(g, n) && Mirrors(a, g) && InBounds(n, loc)
    ensures dirs == LegalDirections(g, n, loc, color)
  {
    dirs := [];
    DirectionsAreCompass();
    assert |g[loc.0]| == a.Length1;
    if a[loc.0, loc.1] == EMPTY {
      for k := 0 to |Directions|
        invariant dirs == CapturingAmong(g, n, loc, color, Directions[..k])
      {
        var d := Directions[k];
        assert Directions[..k + 1] == Directions[..k] + [d];
        var captures := ScanWalk(a, g, n, loc, d, color);
        if captures {
          dirs := dirs + [d];
        }
      }
      assert Directions[..|Directions|] == Directions;
    }
  }

  /** The entry of cell p in the legal-action list: p with its direction list when p is
      empty and some direction captures, nothing otherwise. */
  method ScanCell(a: array2<int>, ghost g: Grid, n: int, color: int, p: Loc) returns (entry: seq<Action>)
    requires IsGrid(g, n) && Mirrors(a, g) && InBounds(n, p)
    ensures entry == CellAction(g, n, color, p)
  {
    assert |g[p.0]| == a.Length1;
    entry := [];
    if a[p.0, p.1] == EMPTY {
      var dirs := ScanDirections(a, g, n, p, color);
      if |dirs| > 0 {
        entry := [Action(p, dirs)];
      }
    }
  }

  /** The entries of row i, in column order. */
  method ScanRow(a: array2<int>, ghost g: Grid, n: int, color: int, i: int) returns (row: seq<Action>)
    requires IsGrid(g, n) && Mirrors(a, g) && 0 <= i < n
    ensures row == RowActions(g, n, color, i, n)
  {
    row := [];
    for j := 0 to n
      invariant row == RowActions(g, n, color, i, j)
    {
      var entry := ScanCell(a, g, n, color, (i, j));
      row := row + entry;
    }
  }

  /** The legal-action list of `color`: every empty cell with a non-empty direction list,
      in row-major order. */
  method ScanActions(a: array2<int>, ghost g: Grid, n: int, color: int) returns (acts: seq<Action>)
    requires IsGrid(g, n) && Mirrors(a, g)
    ensures acts == LegalActions(g, n, color)
  {
    acts := [];
    for i := 0 to n
      invariant acts == ActionsBefore(g, n, color, i)
    {
      var row := ScanRow(a, g, n, color, i);
      acts := acts + row;
    }
  }

  /** A fresh n x n array holding the starting position. */
  method StartArray(n: int) returns (g: array2<int>)
    requires ValidSize(n)
    ensures fresh(g) && Mirrors(g, StartGrid(n))
  {
    var h := n / 2;
    g := new int[n, n]((i, j) => EMPTY);
    g[h - 1, h - 1] := WHITE;
    g[h, h - 1] := BLACK;
    g[h - 1, h] := BLACK;
    g[h, h] := WHITE;
    assert forall i, j :: 0 <= i < n && 0 <= j < n ==> g[i, j] == StartCell(n, (i, j));
    StartArrayMirrors(g, n);
  }

  lemma StartArrayMirrors(g: array2<int>, n: int)
    requires ValidSize(n) && g.Length0 == n && g.Length1 == n
    requires forall i, j :: 0 <= i < n && 0 <= j < n ==> g[i, j] == StartCell(n, (i, j))
    ensures Mirrors(g, StartGrid(n))
  {
    var start := StartGrid(n);
    StartGridSpec(n);
    forall i, j | 0 <= i < n && 0 <= j < n ensures g[i, j] == start[i][j] {
      assert start[i][j] == At(start, (i, j));
    }
  }

  class Board {
    const size: int
    var changeAfter: int
    var randomStart: bool
    var grid: array2<int>
    var prev: array2<int>
    var black: int
    var white: int
    var free: int
    /** The values held by `grid` and `prev`. */
    ghost var cells: Grid
    ghost var prevCells: Grid

    /** The two arrays are distinct, hold valid grids of the board's size, and at least the
        four starting disks are on the current one. */
    ghost predicate GridsValid()
      reads this, grid, prev
    {
      && ValidSize(size) && grid != prev
      && IsGrid(cells, size) && ValidCells(cells) && Mirrors(grid, cells)
      && IsGrid(prevCells, size) && ValidCells(prevCells) && Mirrors(prev, prevCells)
      && Count(cells, EMPTY) <= size * size - 4
    }

    /** The counts are those of the current grid. */
    ghost predicate Valid()
      reads this, grid, prev
    {
      && GridsValid()
      && black == Count(cells, BLACK) && white == Count(cells, WHITE) && free == Count(cells, EMPTY)
    }

    /** A board in the starting position (a random start is played by NewBoard). */
    constructor (boardSize: int, randomStart: bool, changeAfter: int)
      requires ValidSize(boardSize)
      ensures Valid() && fresh(grid) && fresh(prev)
      ensures size == boardSize && this.randomStart == randomStart && this.changeAfter == changeAfter
      ensures cells == StartGrid(boardSize) && prevCells == cells
      ensures black == 2 && white == 2 && free == boardSize * boardSize - 4
    {
      var g := StartArray(boardSize);
      var p := CopyOf(g);
      ghost var start := StartGrid(boardSize);
      StartGridSpec(boardSize);
      assert Mirrors(p, start);
      size := boardSize;
      this.changeAfter := changeAfter;
      this.randomStart := randomStart;
      grid := g;
      prev := p;
      cells := start;
      prevCells := start;
      black, white, free := 2, 2, boardSize * boardSize - 4;
    }

    /** The board's legal-action list for `color`. */
    method GetLegalActions(color: int) returns (acts: seq<Action>)
      requires Valid()
      ensures acts == LegalActions(cells, size, color)
    {
      acts := ScanActions(grid, cells, size, color);
    }

    /** Whether the game is over by the engine's test. */
    function IsGameFinished(): (done: bool)
      requires Valid()
      reads this, grid, prev
      ensures done == Finished(cells)
    {
      free == 0 || black == 0 || white == 0
    }

    /** Recounts the disks of the current grid; the counts always satisfy the engine's
        sanity bounds. */
    method UpdateScore()
      requires GridsValid()
      modifies this
      ensures Valid()
      ensures cells == old(cells) && prevCells == old(prevCells) && grid == old(grid) && prev == old(prev)
      ensures randomStart == old(randomStart) && changeAfter == old(changeAfter)
    {
      var numBlack := CountValue(grid, cells, BLACK);
      var numWhite := CountValue(grid, cells, WHITE);
      var numFree := CountValue(grid, cells, EMPTY);
      CountTotal(cells, size);
      assert 0 <= numBlack <= size * size;
      assert 0 <= numWhite <= size * size;
      assert 0 <= numFree <= size * size - 4;
      assert numBlack + numWhite + numFree == size * size;
      black, white, free := numBlack, numWhite, numFree;
    }

    /** Places a disk of `color` on loc and walks each direction of `dirs` from it, turning
        opponent disks over until an empty cell, an own disk or the edge; the grid before the
        move becomes the previous grid, the counts are redone, and the result tells whether
        the game is over. A move on an occupied cell fails and changes nothing. */
    method TakeAction(loc: Loc, dirs: seq<Dir>, color: int) returns (r: Result<bool, BoardError>)
      requires Valid() && IsPlayer(color) && InBounds(size, loc)
      requires forall d :: d in dirs ==> IsCompass(d)
      modifies this, grid
      ensures Valid() && grid == old(grid)
      ensures randomStart == old(randomStart) && changeAfter == old(changeAfter)
      ensures old(cells)[loc.0][loc.1] != EMPTY ==>
        && r == Err(OccupiedLocation)
        && cells == old(cells) && prevCells == old(prevCells) && prev == old(prev)
      ensures old(cells)[loc.0][loc.1] == EMPTY ==>
        && fresh(prev) && prevCells == old(cells)
        && cells == ApplyAction(old(cells), size, loc, dirs, color)
        && r == Ok(Finished(cells))
    {
      if grid[loc.0, loc.1] != EMPTY {
        return Err(OccupiedLocation);
      }
      ghost var g := cells;
      var p := CopyOf(grid);
      ghost var c := PlaceAndFlip(grid, g, size, loc, dirs, color);
      assert ValidCells(c) && Count(c, EMPTY) == Count(g, EMPTY) - 1 by {
        ApplyActionCounts(g, size, loc, dirs, color);
      }
      prev, prevCells, cells := p, g, c;
      UpdateScore();
      r := Ok(IsGameFinished());
    }

    /** Replaces every field but the size and the threshold. */
    method Overwrite(randomStart: bool, black: int, white: int, free: int, grid: array2<int>, prev: array2<int>, ghost cells: Grid, ghost prevCells: Grid)
      modifies this
      ensures this.randomStart == randomStart && this.changeAfter == old(changeAfter)
      ensures this.black == black && this.white == white && this.free == free
      ensures this.grid == grid && this.prev == prev && this.cells == cells && this.prevCells == prevCells
    {
      this.randomStart := randomStart;
      this.black, this.white, this.free := black, white, free;
      this.grid, this.prev := grid, prev;
      this.cells, this.prevCells := cells, prevCells;
    }

    /** An independent board with the same size, settings, grids and counts. */
    method GetDeepCopy() returns (b: Board)
      requires Valid()
      ensures fresh(b) && fresh(b.grid) && fresh(b.prev) && b.Valid()
      ensures b.size == size && b.randomStart == randomStart && b.changeAfter == changeAfter
      ensures b.cells == cells && b.prevCells == prevCells
      ensures b.black == black && b.white == white && b.free == free
    {
      var g := CopyOf(grid);
      var p := CopyOf(prev);
      assert Mirrors(g, cells) && Mirrors(p, prevCells);
      b := new Board(size, false, changeAfter);
      b.Overwrite(randomStart, black, white, free, g, p, cells, prevCells);
    }

    /** One ply of the random start: takes the action at index `pick` of the legal-action
        list of `color`, or reports that there is no such index. */
    method PlayPick(pick: nat, color: int, ghost rest: seq<nat>, ghost before: Grid) returns (ok: bool, offered: nat)
      requires Valid() && IsPlayer(color)
      modifies this, grid
      ensures Valid() && grid == old(grid) && (fresh(prev) || prev == old(prev))
      ensures randomStart == old(randomStart) && changeAfter == old(changeAfter)
      ensures offered == |LegalActions(old(cells), size, color)|
      ensures ok <==> pick < offered
      ensures ok ==> cells == ApplyPick(old(cells), size, color, pick) && prevCells == old(cells)
      ensures !ok ==> cells == old(cells) && prevCells == old(prevCells)
      ensures PlayOpening(old(cells), size, [pick] + rest, color, before)
        == if ok then Prepend(PlayOpening(cells, size, rest, 1 - color, prevCells), offered) else None
    {
      PlayOpeningCons(cells, size, pick, rest, color, before);
      var acts := GetLegalActions(color);
      offered := |acts|;
      if pick >= |acts| {
        return false, offered;
      }
      LegalActionsApplicable(cells, size, color, pick);
      var _ := TakeAction(acts[pick].loc, acts[pick].dirs, color);
      ok := true;
    }
  }

  /** The opening the counters s pick on an n x n board: black, white, black, white from the
      starting position. */
  ghost function RandomOpening(n: int, s: OpeningState): (r: Option<OpeningPlay>)
    requires ValidSize(n)
    ensures r.Some? ==> |r.value.offered| == 4
  {
    StartGridSpec(n);
    PlayOpeningSpec(StartGrid(n), n, [s.play1, s.play2, s.play3, s.play4], BLACK, StartGrid(n));
    PlayOpening(StartGrid(n), n, [s.play1, s.play2, s.play3, s.play4], BLACK, StartGrid(n))
  }

  /** Plays one opening ply per pick, starting with `color` and alternating: each ply takes
      the action at index pick of the legal-action list, and the plies stop at the first pick
      with no such index. offered holds the sizes of the legal-action lists. */
  method PlayPicks(b: Board, picks: seq<nat>, color: int, ghost before: Grid) returns (ok: bool, offered: seq<nat>)
    requires b.Valid() && IsPlayer(color) && b.prevCells == before
    modifies b, b.grid
    decreases |picks|
    ensures b.Valid() && b.grid == old(b.grid) && (fresh(b.prev) || b.prev == old(b.prev))
    ensures b.randomStart == old(b.randomStart) && b.changeAfter == old(b.changeAfter)
    ensures var o := PlayOpening(old(b.cells), b.size, picks, color, before);
      && (ok <==> o.Some?)
      && (ok ==> b.cells == o.value.after && b.prevCells == o.value.before && offered == o.value.offered)
  {
    if picks == [] {
      return true, [];
    }
    assert picks == [picks[0]] + picks[1..];
    var ok1, offered1 := b.PlayPick(picks[0], color, picks[1..], before);
    if !ok1 {
      return false, [];
    }
    var rest;
    ok, rest := PlayPicks(b, picks[1..], 1 - color, b.prevCells);
    offered := if ok then [offered1] + rest else [];
  }

  /** The random start of a fresh board: the four plies black, white, black, white take the
      actions the shared counters pick, and the counters then move on. */
  method RandomStart(b: Board, counters: OpeningCounters) returns (ok: bool)
    requires b.Valid() && b.prevCells == b.cells
    modifies b, b.grid, counters
    ensures b.Valid() && b.grid == old(b.grid) && (fresh(b.prev) || b.prev == old(b.prev))
    ensures b.randomStart == old(b.randomStart) && b.changeAfter == old(b.changeAfter)
    ensures var s := old(counters.State());
      var o := PlayOpening(old(b.cells), b.size, [s.play1, s.play2, s.play3, s.play4], BLACK, old(b.cells));
      && (ok <==> o.Some?)
      && (!ok ==> counters.State() == s)
      && (ok ==> (|o.value.offered| == 4 && b.cells == o.value.after && b.prevCells == o.value.before
                  && counters.State() == NextState(s, o.value.offered[0], o.value.offered[1], o.value.offered[2], o.value.offered[3], b.changeAfter)))
  {
    ghost var s := counters.State();
    ghost var g0 := b.cells;
    var offered;
    ok, offered := PlayPicks(b, [counters.play1, counters.play2, counters.play3, counters.play4], BLACK, b.cells);
    if !ok {
      return;
    }
    PlayOpeningSpec(g0, b.size, [s.play1, s.play2, s.play3, s.play4], BLACK, g0);
    counters.Advance(offered[0], offered[1], offered[2], offered[3], b.changeAfter);
  }

  /** Builds a board of the given size. With a random start, the four plies black, white,
      black, white take the actions the shared counters pick, and the counters then move on. */
  method NewBoard(boardSize: int, randomStart: bool, changeAfter: int, counters: OpeningCounters)
    returns (r: Result<Board, BoardError>)
    modifies counters
    ensures r.Ok? ==> fresh(r.value) && fresh(r.value.grid) && fresh(r.value.prev) && r.value.Valid()
    ensures r.Ok? ==> r.value.size == boardSize && r.value.randomStart == randomStart && r.value.changeAfter == changeAfter
    ensures !ValidSize(boardSize) ==> r == Err(InvalidBoardSize) && counters.State() == old(counters.State())
    ensures ValidSize(boardSize) && !randomStart ==>
      && r.Ok? && r.value.cells == StartGrid(boardSize) && r.value.prevCells == StartGrid(boardSize)
      && counters.State() == old(counters.State())
    ensures ValidSize(boardSize) && randomStart ==>
      var s := old(counters.State());
      var o := RandomOpening(boardSize, s);
      if o.None? then r == Err(NoSuchOpening) && counters.State() == s
      else
        && r.Ok? && r.value.cells == o.value.after && r.value.prevCells == o.value.before
        && counters.State() == NextState(s, o.value.offered[0], o.value.offered[1], o.value.offered[2], o.value.offered[3], changeAfter)
  {
    if !(4 <= boardSize <= 12) || boardSize % 2 != 0 {
      return Err(InvalidBoardSize);
    }
    var b := new Board(boardSize, randomStart, changeAfter);
    if !randomStart {
      return Ok(b);
    }
    var ok := RandomStart(b, counters);
    r := if ok then Ok(b) else Err(NoSuchOpening);
  }
}
