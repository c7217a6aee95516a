/**
 * The board views the learning agents feed on: the grid flattened row by row, split into
 * one 0/1 plane per colour, both at once in either order, and flattened with +1 for the
 * own colour and -1 for the opponent's.
 */
module Reshapes {
  import opened Cells

  /** A two-dimensional array of integers, row by row. */
  type Plane = seq<seq<int>>

  /** Every row has cols entries. */
  predicate Rect(b: Plane, cols: int) {
    forall i :: 0 <= i < |b| ==> |b[i]| == cols
  }

  /** The entries of b row by row, as one sequence. */
  function Flatten(b: Plane): seq<int> {
    if |b| == 0 then [] else b[0] + Flatten(b[1..])
  }

  /** The entries of a stack of planes, plane by plane and row by row. */
  function FlattenStack(planes: seq<Plane>): seq<int> {
    if |planes| == 0 then [] else Flatten(planes[0]) + FlattenStack(planes[1..])
  }

  /** The rows x cols plane whose rows are consecutive slices of s: the inverse of Flatten. */
  function Unflatten(s: seq<int>, rows: nat, cols: nat): (r: Plane)
    requires |s| == rows * cols
    ensures |r| == rows && Rect(r, cols)
    decreases rows
  {
    if rows == 0 then []
    else
      assert rows * cols == (rows - 1) * cols + cols;
      [s[..cols]] + Unflatten(s[cols..], rows - 1, cols)
  }

  /** f applied to every entry. */
  function MapCells(f: int -> int, s: seq<int>): (r: seq<int>)
    ensures |r| == |s| && forall k :: 0 <= k < |s| ==> r[k] == f(s[k])
  {
    seq(|s|, k requires 0 <= k < |s| => f(s[k]))
  }

  /** f applied to every entry of every row. */
  function MapPlane(f: int -> int, b: Plane): (r: Plane)
    ensures |r| == |b| && forall i :: 0 <= i < |b| ==> r[i] == MapCells(f, b[i])
  {
    seq(|b|, i requires 0 <= i < |b| => MapCells(f, b[i]))
  }

  /** mark where a value equals v, 0 elsewhere. */
  function Mark(v: int, mark: int): int -> int {
    x => if x == v then mark else 0
  }

  /** The entrywise sum of two planes of the same shape. */
  function AddPlanes(x: Plane, y: Plane): (r: Plane)
    requires |x| == |y| && forall i :: 0 <= i < |x| ==> |x[i]| == |y[i]|
    ensures |r| == |x| && forall i :: 0 <= i < |x| ==> |r[i]| == |x[i]|
    ensures forall i, j :: 0 <= i < |x| && 0 <= j < |x[i]| ==> r[i][j] == x[i][j] + y[i][j]
  {
    seq(|x|, i requires 0 <= i < |x| => seq(|x[i]|, j requires 0 <= j < |x[i]| => x[i][j] + y[i][j]))
  }

  /** A flat board as two 0/1 rows: black stones, then white stones. */
  function SplitFlat(s: seq<int>): (r: seq<seq<int>>)
    ensures |r| == 2 && |r[0]| == |s| && |r[1]| == |s|
    ensures forall k :: 0 <= k < |s| ==> (r[0][k] == 1 <==> s[k] == BLACK) && (r[0][k] == 0 <==> s[k] != BLACK)
    ensures forall k :: 0 <= k < |s| ==> (r[1][k] == 1 <==> s[k] == WHITE) && (r[1][k] == 0 <==> s[k] != WHITE)
  {
    [MapCells(Mark(BLACK, 1), s), MapCells(Mark(WHITE, 1), s)]
  }

  /** A board as two 0/1 planes of its shape: black stones, then white stones. No cell is
      marked in both planes, and an empty cell is marked in neither. */
  function Split(b: Plane): (r: seq<Plane>)
    ensures |r| == 2
    ensures forall c :: 0 <= c < 2 ==> |r[c]| == |b| && forall i :: 0 <= i < |b| ==> |r[c][i]| == |b[i]|
    ensures forall i, j :: 0 <= i < |b| && 0 <= j < |b[i]| ==>
      && (r[0][i][j] == 1 <==> b[i][j] == BLACK) && (r[0][i][j] == 0 <==> b[i][j] != BLACK)
      && (r[1][i][j] == 1 <==> b[i][j] == WHITE) && (r[1][i][j] == 0 <==> b[i][j] != WHITE)
      && !(r[0][i][j] == 1 && r[1][i][j] == 1)
      && (b[i][j] == EMPTY ==> r[0][i][j] == 0 && r[1][i][j] == 0)
  {
    [MapPlane(Mark(BLACK, 1), b), MapPlane(Mark(WHITE, 1), b)]
  }

  /** The board flattened, then split into a black row and a white row. */
  function FlattenSplit(b: Plane): seq<seq<int>> {
    SplitFlat(Flatten(b))
  }

  /** The board split into a black plane and a white plane, then flattened as a whole. */
  function SplitFlatten(b: Plane): seq<int> {
    FlattenStack(Split(b))
  }

  /** The board as +1 for own's stones and -1 for the opponent's, flattened; own is a
      player colour. */
  function FlattenNegative(b: Plane, own: int): seq<int>
    requires IsPlayer(own)
  {
    Flatten(AddPlanes(MapPlane(Mark(own, 1), b), MapPlane(Mark(1 - own, -1), b)))
  }

  // ---------------------------------------------------------------------------
  // Decoders: the cell codes recovered from each view

  /** The board the two planes of Split describe. */
  function Merge(planes: seq<Plane>): Plane
    requires |planes| == 2 && |planes[0]| == |planes[1]|
    requires forall i :: 0 <= i < |planes[0]| ==> |planes[0][i]| == |planes[1][i]|
  {
    seq(|planes[0]|, i requires 0 <= i < |planes[0]| =>
      seq(|planes[0][i]|, j requires 0 <= j < |planes[0][i]| =>
        if planes[0][i][j] == 1 then BLACK else if planes[1][i][j] == 1 then WHITE else EMPTY))
  }

  /** The cell code a FlattenNegative entry stands for. */
  function Unsigned(own: int): int -> int {
    x => if x == 1 then own else if x == -1 then 1 - own else EMPTY
  }

  // ---------------------------------------------------------------------------
  // Properties

  /** The position of row i's first entry in a flattened plane of cols columns, written as
      repeated addition so that proofs about positions stay linear. */
  function RowStart(i: nat, cols: nat): nat {
    if i == 0 then 0 else RowStart(i - 1, cols) + cols
  }

  /** Row i starts at position i * cols. */
  lemma {:induction false} RowStartIsProduct(i: nat, cols: nat)
    ensures RowStart(i, cols) == i * cols
  {
    if i > 0 {
      RowStartIsProduct(i - 1, cols);
      assert (i - 1) * cols + cols == i * cols;
    }
  }

  /** Cell (i, j) of b is at position RowStart(i, cols) + j of s. */
  predicate CellAt(s: seq<int>, b: Plane, cols: nat, i: nat, j: nat)
    requires i < |b| && j < |b[i]|
  {
    RowStart(i, cols) + j < |s| && s[RowStart(i, cols) + j] == b[i][j]
  }

  /** Every cell of b is at its row-major position in s. */
  predicate LaidOut(s: seq<int>, b: Plane, cols: nat) {
    forall i: nat, j: nat :: i < |b| && j < cols && j < |b[i]| ==> CellAt(s, b, cols, i, j)
  }

  /** Putting a row of cols entries in front of a laid-out plane lays out the longer plane. */
  lemma LaidOutCons(row: seq<int>, t: seq<int>, rest: Plane, cols: nat)
    requires |row| == cols && LaidOut(t, rest, cols)
    ensures LaidOut(row + t, [row] + rest, cols)
  {
    var b := [row] + rest;
    forall i: nat, j: nat | i < |b| && j < cols && j < |b[i]|
      ensures CellAt(row + t, b, cols, i, j)
    {
      if i > 0 {
        assert b[i][j] == rest[i - 1][j];
        assert CellAt(t, rest, cols, i - 1, j);
      }
    }
  }

  /** Flattening a plane of cols columns lays row i out at positions RowStart(i, cols) onwards. */
  lemma {:induction false} FlattenIndex(b: Plane, cols: nat)
    requires Rect(b, cols)
    ensures |Flatten(b)| == RowStart(|b|, cols)
    ensures LaidOut(Flatten(b), b, cols)
  {
    if |b| > 0 {
      FlattenIndex(b[1..], cols);
      LaidOutCons(b[0], Flatten(b[1..]), b[1..], cols);
      assert [b[0]] + b[1..] == b;
    }
  }

  /** The same in the source's terms: a rows x cols plane flattens to rows * cols entries,
      with cell (i, j) at position i * cols + j. */
  lemma FlattenRowMajor(b: Plane, cols: nat, i: int, j: int)
    requires Rect(b, cols) && 0 <= i < |b| && 0 <= j < cols
    ensures |Flatten(b)| == |b| * cols
    ensures i * cols + j < |Flatten(b)| && Flatten(b)[i * cols + j] == b[i][j]
  {
    FlattenIndex(b, cols);
    RowStartIsProduct(|b|, cols);
    RowStartIsProduct(i, cols);
    assert CellAt(Flatten(b), b, cols, i, j);
  }

  /** Cutting a flattened plane back into rows of cols entries gives the plane. */
  lemma {:induction false} UnflattenFlatten(b: Plane, cols: nat)
    requires Rect(b, cols)
    ensures |Flatten(b)| == |b| * cols && Unflatten(Flatten(b), |b|, cols) == b
  {
    FlattenIndex(b, cols);
    RowStartIsProduct(|b|, cols);
    if |b| > 0 {
      var s := Flatten(b);
      UnflattenFlatten(b[1..], cols);
      assert s == b[0] + Flatten(b[1..]);
      assert s[..cols] == b[0] && s[cols..] == Flatten(b[1..]);
      assert Unflatten(s, |b|, cols) == [b[0]] + b[1..];
    }
  }

  /** Flattening the rows cut from a sequence gives the sequence back. */
  lemma {:induction false} FlattenUnflatten(s: seq<int>, rows: nat, cols: nat)
    requires |s| == rows * cols
    ensures Flatten(Unflatten(s, rows, cols)) == s
    decreases rows
  {
    if rows > 0 {
      assert rows * cols == (rows - 1) * cols + cols;
      var u := Unflatten(s, rows, cols);
      FlattenUnflatten(s[cols..], rows - 1, cols);
      assert u[1..] == Unflatten(s[cols..], rows - 1, cols);
      assert Flatten(u) == s[..cols] + s[cols..];
    }
  }

  /** Mapping entries commutes with flattening. */
  lemma {:induction false} MapFlatten(f: int -> int, b: Plane)
    ensures MapCells(f, Flatten(b)) == Flatten(MapPlane(f, b))
  {
    if |b| > 0 {
      MapFlatten(f, b[1..]);
      assert MapPlane(f, b)[1..] == MapPlane(f, b[1..]);
      assert MapCells(f, b[0] + Flatten(b[1..])) == MapCells(f, b[0]) + MapCells(f, Flatten(b[1..]));
    }
  }

  /** Flattening then splitting gives the same rows as splitting then flattening each plane,
      so row c of FlattenSplit holds plane c of Split in row-major order. */
  lemma FlattenSplitCommutes(b: Plane, cols: nat)
    requires Rect(b, cols)
    ensures FlattenSplit(b) == [Flatten(Split(b)[0]), Flatten(Split(b)[1])]
    ensures LaidOut(FlattenSplit(b)[0], Split(b)[0], cols) && LaidOut(FlattenSplit(b)[1], Split(b)[1], cols)
  {
    MapFlatten(Mark(BLACK, 1), b);
    MapFlatten(Mark(WHITE, 1), b);
    FlattenIndex(Split(b)[0], cols);
    FlattenIndex(Split(b)[1], cols);
  }

  /** Splitting then flattening lays out the black plane, then the white plane: the two rows
      of FlattenSplit one after the other, 2 * rows * cols entries in all. */
  lemma SplitFlattenLayout(b: Plane, cols: nat)
    requires Rect(b, cols)
    ensures SplitFlatten(b) == FlattenSplit(b)[0] + FlattenSplit(b)[1]
    ensures |SplitFlatten(b)| == 2 * (|b| * cols)
    ensures LaidOut(SplitFlatten(b)[..|b| * cols], Split(b)[0], cols)
    ensures LaidOut(SplitFlatten(b)[|b| * cols..], Split(b)[1], cols)
  {
    var p := Split(b);
    assert FlattenStack(p) == Flatten(p[0]) + (Flatten(p[1]) + FlattenStack(p[2..]));
    FlattenSplitCommutes(b, cols);
    FlattenIndex(b, cols);
    RowStartIsProduct(|b|, cols);
    var t := FlattenSplit(b);
    assert SplitFlatten(b)[..|b| * cols] == t[0];
    assert SplitFlatten(b)[|b| * cols..] == t[1];
  }

  /** The value FlattenNegative gives a cell: 1 for own, -1 for the opponent, 0 otherwise. */
  function Signed(own: int): int -> int {
    x => Mark(own, 1)(x) + Mark(1 - own, -1)(x)
  }

  /** FlattenNegative maps every entry of the flattened board on its own. */
  lemma NegativeIsMap(b: Plane, own: int)
    requires IsPlayer(own)
    ensures FlattenNegative(b, own) == MapCells(Signed(own), Flatten(b))
  {
    var a := AddPlanes(MapPlane(Mark(own, 1), b), MapPlane(Mark(1 - own, -1), b));
    forall i | 0 <= i < |b| ensures a[i] == MapPlane(Signed(own), b)[i] {
    }
    assert a == MapPlane(Signed(own), b);
    MapFlatten(Signed(own), b);
  }

  /** v is the FlattenNegative entry for a cell holding x: 1 exactly for own, -1 exactly for
      the opponent 1 - own, and 0 for anything else. */
  predicate Encodes(v: int, x: int, own: int) {
    (v == 1 <==> x == own) && (v == -1 <==> x == 1 - own) && (v == 0 <==> x != own && x != 1 - own)
  }

  /** Signed encodes every value, and Unsigned undoes it on cell codes. */
  lemma SignedValues(own: int, x: int)
    requires IsPlayer(own)
    ensures Encodes(Signed(own)(x), x, own)
    ensures IsCellCode(x) ==> Unsigned(own)(Signed(own)(x)) == x
  {
    assert Mark(own, 1)(x) == if x == own then 1 else 0;
    assert Mark(1 - own, -1)(x) == if x == 1 - own then -1 else 0;
    assert Signed(own)(x) == Mark(own, 1)(x) + Mark(1 - own, -1)(x);
  }

  /** Entry by entry, FlattenNegative is 1 exactly where the flattened board holds own, -1
      exactly where it holds the opponent 1 - own, and 0 elsewhere; FlattenRowMajor places
      each cell. */
  lemma FlattenNegativeValues(b: Plane, own: int)
    requires IsPlayer(own)
    ensures |FlattenNegative(b, own)| == |Flatten(b)|
    ensures forall k :: 0 <= k < |Flatten(b)| ==> Encodes(FlattenNegative(b, own)[k], Flatten(b)[k], own)
  {
    NegativeIsMap(b, own);
    var f := Flatten(b);
    forall k | 0 <= k < |f| ensures Encodes(FlattenNegative(b, own)[k], f[k], own) {
      SignedValues(own, f[k]);
    }
  }

  /** FlattenNegative is the own colour's row of FlattenSplit minus the opponent's. */
  lemma FlattenNegativeIsDifference(b: Plane, own: int)
    requires IsPlayer(own)
    ensures |FlattenNegative(b, own)| == |FlattenSplit(b)[own]| == |FlattenSplit(b)[1 - own]|
    ensures forall k :: 0 <= k < |FlattenNegative(b, own)| ==>
      FlattenNegative(b, own)[k] == FlattenSplit(b)[own][k] - FlattenSplit(b)[1 - own][k]
  {
    NegativeIsMap(b, own);
  }

  /** On a board of cell codes the planes of Split determine the board. */
  lemma SplitMerge(b: Plane)
    requires ValidCells(b)
    ensures Merge(Split(b)) == b
  {
    var m := Merge(Split(b));
    forall i | 0 <= i < |b| ensures m[i] == b[i] {
      assert forall j :: 0 <= j < |b[i]| ==> IsCellCode(b[i][j]);
    }
  }

  /** Flattening a board of cell codes gives cell codes. */
  lemma {:induction false} FlattenCellCodes(b: Plane)
    requires ValidCells(b)
    ensures forall k :: 0 <= k < |Flatten(b)| ==> IsCellCode(Flatten(b)[k])
  {
    if |b| > 0 {
      assert ValidCells(b[1..]) by {
        forall i, j | 0 <= i < |b[1..]| && 0 <= j < |b[1..][i]| ensures IsCellCode(b[1..][i][j]) {
          assert b[1..][i] == b[i + 1];
        }
      }
      FlattenCellCodes(b[1..]);
      forall k | 0 <= k < |b[0]| ensures IsCellCode(b[0][k]) {
        assert IsCellCode(b[0][k]);
      }
    }
  }

  /** On a board of cell codes, decoding FlattenNegative's entries gives the flattened board,
      and cutting that into rows gives the board back. */
  lemma FlattenNegativeDecodes(b: Plane, own: int, cols: nat)
    requires IsPlayer(own) && Rect(b, cols) && ValidCells(b)
    ensures MapCells(Unsigned(own), FlattenNegative(b, own)) == Flatten(b)
    ensures |Flatten(b)| == |b| * cols
    ensures Unflatten(MapCells(Unsigned(own), FlattenNegative(b, own)), |b|, cols) == b
  {
    NegativeIsMap(b, own);
    FlattenCellCodes(b);
    var f := Flatten(b);
    var d := MapCells(Unsigned(own), FlattenNegative(b, own));
    forall k | 0 <= k < |f| ensures d[k] == f[k] {
      SignedValues(own, f[k]);
    }
    assert d == f;
    UnflattenFlatten(b, cols);
  }
}
