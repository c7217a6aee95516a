/**
 * The starting position of the standard 8 x 8 board worked out: Black's legal
 * actions there are (2, 3), (3, 2), (4, 5) and (5, 4), in that order, each with
 * the single direction that captures the white disk next to it.
 */
module Scenarios {
  import opened Cells
  import opened Rules

  /** Black's legal-action list at the start of an 8 x 8 game. */
  const BlackOpening: seq<Action> :=
    [Action((2, 3), [(1, 0)]), Action((3, 2), [(0, 1)]), Action((4, 5), [(0, -1)]), Action((5, 4), [(-1, 0)])]

  /** g holds the starting position of an 8 x 8 board, read cell by cell. */
  ghost predicate IsStart8(g: Grid) {
    && IsGrid(g, 8) && ValidCells(g)
    && forall p :: At(g, p) == if InBounds(8, p) then StartCell(8, p) else OFF
  }

  /** d is the capturing direction of a Black move on loc from the start. */
  predicate OpeningMove(loc: Loc, d: Dir) {
    || (loc == (2, 3) && d == (1, 0))
    || (loc == (3, 2) && d == (0, 1))
    || (loc == (4, 5) && d == (0, -1))
    || (loc == (5, 4) && d == (-1, 0))
  }

  lemma StartIsStart8()
    ensures IsStart8(StartGrid(8))
  {
    StartGridSpec(8);
  }

  /** From the start, Black brackets along d from loc exactly on the four opening moves, each
      capturing one white disk: two white disks in a row lead on to an empty cell. */
  lemma StartBrackets(g: Grid, loc: Loc, d: Dir, k: int)
    requires IsStart8(g) && IsCompass(d)
    ensures Brackets(g, loc, d, BLACK, k) <==> k == 2 && OpeningMove(loc, d)
  {
    var w1, w2, w3 := Ray(loc, d, 1), Ray(loc, d, 2), Ray(loc, d, 3);
    assert w2 == Next(w1, d) && w3 == Next(w2, d);
    if k == 2 && OpeningMove(loc, d) {
      assert At(g, w1) == WHITE && At(g, w2) == BLACK;
    }
  }

  /** From the start, the direction list of a cell is one opening direction or empty. */
  lemma StartDirections(g: Grid, n: int, loc: Loc)
    requires IsStart8(g) && n == 8 && InBounds(n, loc)
    ensures forall d :: d in LegalDirections(g, n, loc, BLACK) <==> OpeningMove(loc, d)
    ensures |LegalDirections(g, n, loc, BLACK)| <= 1
  {
    var r := LegalDirections(g, n, loc, BLACK);
    LegalDirectionsSpec(g, n, loc, BLACK);
    DirectionsAreCompass();
    forall d ensures d in r <==> OpeningMove(loc, d) {
      if OpeningMove(loc, d) {
        assert d in Directions;
        StartBrackets(g, loc, d, 2);
        assert g[loc.0][loc.1] == At(g, loc) == EMPTY;
      }
      if d in r {
        var k :| Brackets(g, loc, d, BLACK, k);
        StartBrackets(g, loc, d, k);
      }
    }
    if |r| >= 2 {
      assert r[0] in r && r[1] in r;
      assert DirIndex(r[0]) < DirIndex(r[1]);
    }
  }

  /** The row-major order of Black's four opening cells. */
  const OpeningKeys: seq<Loc> := [(2, 3), (3, 2), (4, 5), (5, 4)]

  predicate IsOpeningKey(p: Loc) {
    p == (2, 3) || p == (3, 2) || p == (4, 5) || p == (5, 4)
  }

  /** From the start, Black's legal moves are the four opening cells. */
  lemma StartLegalMoves(g: Grid, n: int, p: Loc)
    requires IsStart8(g) && n == 8
    ensures IsLegalMove(g, n, BLACK, p) <==> IsOpeningKey(p)
  {
    if InBounds(n, p) {
      StartDirections(g, n, p);
      var r := LegalDirections(g, n, p, BLACK);
      assert g[p.0][p.1] == At(g, p);
      if IsOpeningKey(p) {
        var d := if p == (2, 3) then (1, 0) else if p == (3, 2) then (0, 1) else if p == (4, 5) then (0, -1) else (-1, 0);
        assert OpeningMove(p, d) && d in r;
        assert StartCell(8, p) == EMPTY;
      }
      assert r != [] ==> OpeningMove(p, r[0]);
    }
  }

  /** From the start, the direction list of the k-th opening cell is its one capturing direction. */
  lemma OpeningDirections(g: Grid, n: int, k: int)
    requires IsStart8(g) && n == 8 && 0 <= k < 4
    ensures LegalDirections(g, n, OpeningKeys[k], BLACK) == BlackOpening[k].dirs
  {
    var loc := OpeningKeys[k];
    var d := BlackOpening[k].dirs[0];
    StartDirections(g, n, loc);
    var r := LegalDirections(g, n, loc, BLACK);
    assert OpeningMove(loc, d);
    assert d in r;
  }

  /** A list with strictly row-major keys, each an opening cell and every opening cell among
      them, has the four opening cells as its keys, in order. */
  lemma SortedOpeningKeys(acts: seq<Action>)
    requires RowMajorSorted(acts)
    requires forall a :: 0 <= a < |acts| ==> IsOpeningKey(acts[a].loc)
    requires HasKey(acts, (2, 3)) && HasKey(acts, (3, 2)) && HasKey(acts, (4, 5)) && HasKey(acts, (5, 4))
    ensures |acts| == 4 && forall a :: 0 <= a < 4 ==> acts[a].loc == OpeningKeys[a]
  {
    var a0 :| 0 <= a0 < |acts| && acts[a0].loc == (2, 3);
    var a1 :| 0 <= a1 < |acts| && acts[a1].loc == (3, 2);
    var a2 :| 0 <= a2 < |acts| && acts[a2].loc == (4, 5);
    var a3 :| 0 <= a3 < |acts| && acts[a3].loc == (5, 4);
    assert a0 < a1 < a2 < a3;
    var last := |acts| - 1;
    assert IsOpeningKey(acts[0].loc) && IsOpeningKey(acts[last].loc);
    assert a0 == 0 && a3 == last;
    assert IsOpeningKey(acts[1].loc) && IsOpeningKey(acts[2].loc) && IsOpeningKey(acts[3].loc);
    assert a1 == 1 && a2 == 2 && a3 == 3;
  }

  /** From the start, a list that holds each legal move of Black exactly once as a key
      holds the four opening cells and nothing else. */
  lemma StartKeys(g: Grid, n: int, acts: seq<Action>)
    requires IsStart8(g) && n == 8
    requires forall p :: IsLegalMove(g, n, BLACK, p) <==> HasKey(acts, p)
    ensures forall a :: 0 <= a < |acts| ==> IsOpeningKey(acts[a].loc)
    ensures HasKey(acts, (2, 3)) && HasKey(acts, (3, 2)) && HasKey(acts, (4, 5)) && HasKey(acts, (5, 4))
  {
    forall a | 0 <= a < |acts| ensures IsOpeningKey(acts[a].loc) {
      assert HasKey(acts, acts[a].loc);
      StartLegalMoves(g, n, acts[a].loc);
    }
    StartLegalMoves(g, n, (2, 3));
    StartLegalMoves(g, n, (3, 2));
    StartLegalMoves(g, n, (4, 5));
    StartLegalMoves(g, n, (5, 4));
  }

  /** From the start, a sound, row-major list of exactly Black's legal moves is BlackOpening. */
  lemma StartListing(g: Grid, n: int, acts: seq<Action>)
    requires IsStart8(g) && n == 8
    requires EntriesSound(g, n, BLACK, acts) && RowMajorSorted(acts)
    requires forall p :: IsLegalMove(g, n, BLACK, p) <==> HasKey(acts, p)
    ensures acts == BlackOpening
  {
    StartKeys(g, n, acts);
    SortedOpeningKeys(acts);
    forall a | 0 <= a < 4 ensures acts[a] == BlackOpening[a] {
      OpeningDirections(g, n, a);
    }
  }

  /** Black's legal-action list at the start of an 8 x 8 game. */
  lemma StartActions(g: Grid, n: int)
    requires IsStart8(g) && n == 8
    ensures LegalActions(g, n, BLACK) == BlackOpening
  {
    LegalActionsSpec(g, n, BLACK);
    StartListing(g, n, LegalActions(g, n, BLACK));
  }

  /** The same for the starting grid itself. */
  lemma StartGridActions()
    ensures LegalActions(StartGrid(8), 8, BLACK) == BlackOpening
  {
    StartIsStart8();
    StartActions(StartGrid(8), 8);
  }
}
