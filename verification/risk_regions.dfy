/**
 * The risk-region weights: an N x N matrix of cell weights used by the weighted
 * agents. One quadrant is built from a fixed 3 x 3 corner table and an edge row,
 * then mirrored into the other three quadrants by symmetric padding.
 */
module RiskRegions {
  import opened Wrappers
  import opened Cells

  type Matrix = seq<seq<int>>

  /** The weights along an edge, next to the corner region. */
  const Edge: seq<int> := [5, 2, 1]

  /** The weights of a corner region, the corner cell at the top left. */
  const Corner: Matrix := [[100, -25, 10], [-25, -25, 2], [10, 2, 5]]

  /** The corner table with the edge row below it and the edge column, extended by 1, on its
      right: the 4 x 4 block a large board's quadrant starts from. */
  const Corner4: Matrix := [[100, -25, 10, 5], [-25, -25, 2, 2], [10, 2, 5, 1], [5, 2, 1, 1]]

  datatype RiskError = InvalidBoardSize

  predicate IsMatrix(m: Matrix, rows: int, cols: int) {
    |m| == rows && forall i :: 0 <= i < rows ==> |m[i]| == cols
  }

  function Min(a: int, b: int): int {
    if a < b then a else b
  }

  /** The top-left k x k block. */
  function Crop(m: Matrix, k: nat): (r: Matrix)
    requires k <= |m| && forall i :: 0 <= i < |m| ==> k <= |m[i]|
    ensures IsMatrix(r, k, k)
    ensures forall i, j :: 0 <= i < k && 0 <= j < k ==> r[i][j] == m[i][j]
  {
    seq(k, i requires 0 <= i < k => m[i][..k])
  }

  /** m with one more row at the bottom. */
  function VStack(m: Matrix, row: seq<int>): (r: Matrix)
    ensures |r| == |m| + 1 && r[..|m|] == m && r[|m|] == row
  {
    m + [row]
  }

  /** m with one more column on the right. */
  function ColumnStack(m: Matrix, col: seq<int>): (r: Matrix)
    requires |col| == |m|
    ensures |r| == |m|
    ensures forall i :: 0 <= i < |m| ==> |r[i]| == |m[i]| + 1 && r[i][..|m[i]|] == m[i] && r[i][|m[i]|] == col[i]
  {
    seq(|m|, i requires 0 <= i < |m| => m[i] + [col[i]])
  }

  /** m padded with p rows below and p columns on the right, each new cell copying the
      nearest cell of the last row or column (numpy's 'edge' mode). */
  function PadEdge(m: Matrix, rows: nat, cols: nat, p: nat): (r: Matrix)
    requires IsMatrix(m, rows, cols) && rows >= 1 && cols >= 1
    ensures IsMatrix(r, rows + p, cols + p)
    ensures forall i, j :: 0 <= i < rows + p && 0 <= j < cols + p ==> r[i][j] == m[Min(i, rows - 1)][Min(j, cols - 1)]
  {
    seq(rows + p, i requires 0 <= i < rows + p =>
      seq(cols + p, j requires 0 <= j < cols + p => m[Min(i, rows - 1)][Min(j, cols - 1)]))
  }

  /** The index a symmetric pad reads for position i of a line of length len padded by at
      most len: the line itself, then the line reversed. */
  function Reflect(i: int, len: int): int {
    if i < len then i else 2 * len - 1 - i
  }

  /** Positions k and 2 * len - 1 - k of a line padded to twice its length read the same
      index of the original line. */
  lemma ReflectMirror(k: int, len: int)
    requires 0 <= k < 2 * len
    ensures 0 <= Reflect(k, len) < len
    ensures Reflect(2 * len - 1 - k, len) == Reflect(k, len)
  {
  }

  /** m padded with p <= rows rows below and p <= cols columns on the right, mirroring the
      matrix about its last row and last column (numpy's 'symmetric' mode). */
  function PadSymmetric(m: Matrix, rows: nat, cols: nat, p: nat): (r: Matrix)
    requires IsMatrix(m, rows, cols) && p <= rows && p <= cols
    ensures IsMatrix(r, rows + p, cols + p)
    ensures forall i, j :: 0 <= i < rows + p && 0 <= j < cols + p ==> r[i][j] == m[Reflect(i, rows)][Reflect(j, cols)]
  {
    seq(rows + p, i requires 0 <= i < rows + p =>
      seq(cols + p, j requires 0 <= j < cols + p => m[Reflect(i, rows)][Reflect(j, cols)]))
  }

  /** The top-left quadrant of the weights for half-size h: the corner table cut down for
      h <= 3, otherwise the 4 x 4 block grown by edge padding, with weight 2 on its inner
      corner. */
  function Quadrant(h: int): (r: Matrix)
    requires 2 <= h <= 6
    ensures IsMatrix(r, h, h)
  {
    if h <= 3 then Crop(Corner, h)
    else
      var w := ColumnStack(VStack(Corner, Edge), Edge + [1]);
      StackedCorner();
      var w' := PadEdge(w, 4, 4, h - 4);
      w'[h - 1 := w'[h - 1][h - 1 := 2]]
  }

  /** The weight matrix of an n x n board; the size must be even and between 4 and 12. */
  function Weights(n: int): (r: Result<Matrix, RiskError>)
    ensures r.Ok? <==> ValidSize(n)
    ensures r.Ok? ==> IsMatrix(r.value, n, n)
    ensures r.Err? ==> r.error == InvalidBoardSize
  {
    if !(4 <= n <= 12) then Err(InvalidBoardSize)
    else if n % 2 != 0 then Err(InvalidBoardSize)
    else
      var h := n / 2;
      Ok(PadSymmetric(Quadrant(h), h, h, h))
  }

  // ---------------------------------------------------------------------------
  // What the weights are

  /** Stacking the edge row under the corner table and the extended edge column beside it
      gives the 4 x 4 block. */
  lemma StackedCorner()
    ensures ColumnStack(VStack(Corner, Edge), Edge + [1]) == Corner4
  {
    var w := ColumnStack(VStack(Corner, Edge), Edge + [1]);
    assert w[0] == Corner4[0] && w[1] == Corner4[1] && w[2] == Corner4[2] && w[3] == Corner4[3];
  }

  lemma CornerSymmetric()
    ensures forall i, j :: 0 <= i < 3 && 0 <= j < 3 ==> Corner[i][j] == Corner[j][i]
    ensures forall i, j :: 0 <= i < 4 && 0 <= j < 4 ==> Corner4[i][j] == Corner4[j][i]
  {
    forall i, j | 0 <= i < 4 && 0 <= j < 4 ensures Corner4[i][j] == Corner4[j][i] {
      assert i == 0 || i == 1 || i == 2 || i == 3;
    }
  }

  /** The quadrant, cell by cell: the corner table for h <= 3; for larger h the 4 x 4 block
      with its last row and column repeated outwards, except weight 2 on the inner corner. */
  lemma QuadrantValues(h: int)
    requires 2 <= h <= 6
    ensures forall i, j :: 0 <= i < h && 0 <= j < h ==>
      Quadrant(h)[i][j] == if h <= 3 then Corner[i][j]
        else if i == h - 1 && j == h - 1 then 2
        else Corner4[Min(i, 3)][Min(j, 3)]
  {
    if h > 3 {
      StackedCorner();
      var w' := PadEdge(Corner4, 4, 4, h - 4);
      assert Quadrant(h) == w'[h - 1 := w'[h - 1][h - 1 := 2]];
      forall i, j | 0 <= i < h && 0 <= j < h ensures w'[i][j] == Corner4[Min(i, 3)][Min(j, 3)] {
        if i >= 4 && j >= 4 {
          assert w'[i][j] == w'[3][j] == w'[3][3];
        } else if i >= 4 {
          assert w'[i][j] == w'[3][j];
        } else if j >= 4 {
          assert w'[i][j] == w'[i][3];
        }
      }
    } else {
      assert Quadrant(h) == Crop(Corner, h);
    }
  }

  /** The quadrant is symmetric about its main diagonal. */
  lemma QuadrantTranspose(h: int)
    requires 2 <= h <= 6
    ensures forall i, j :: 0 <= i < h && 0 <= j < h ==> Quadrant(h)[i][j] == Quadrant(h)[j][i]
  {
    QuadrantValues(h);
    CornerSymmetric();
  }

  /** Every weight is the weight of its cell's image in the top-left quadrant. */
  lemma WeightsFromQuadrant(n: int)
    requires ValidSize(n)
    ensures var w := Weights(n).value; var h := n / 2;
      forall i, j :: 0 <= i < n && 0 <= j < n ==>
        0 <= Reflect(i, h) < h && 0 <= Reflect(j, h) < h && w[i][j] == Quadrant(h)[Reflect(i, h)][Reflect(j, h)]
  {
    var h := n / 2;
    forall i, j | 0 <= i < n && 0 <= j < n ensures 0 <= Reflect(i, h) < h && 0 <= Reflect(j, h) < h {
      ReflectMirror(i, h);
      ReflectMirror(j, h);
    }
  }

  /** A matrix read from q through Reflect on both axes is mirror-symmetric. */
  lemma ReflectedIsMirrored(w: Matrix, q: Matrix, h: int)
    requires IsMatrix(w, 2 * h, 2 * h) && IsMatrix(q, h, h)
    requires forall i, j :: 0 <= i < 2 * h && 0 <= j < 2 * h ==>
      0 <= Reflect(i, h) < h && 0 <= Reflect(j, h) < h && w[i][j] == q[Reflect(i, h)][Reflect(j, h)]
    ensures forall i, j {:trigger w[i][j]} :: 0 <= i < 2 * h && 0 <= j < 2 * h ==>
      w[i][j] == w[i][2 * h - 1 - j] && w[i][j] == w[2 * h - 1 - i][j]
  {
    forall i, j {:trigger w[i][j]} | 0 <= i < 2 * h && 0 <= j < 2 * h
      ensures w[i][j] == w[i][2 * h - 1 - j] && w[i][j] == w[2 * h - 1 - i][j]
    {
      ReflectMirror(i, h);
      ReflectMirror(j, h);
      assert w[i][2 * h - 1 - j] == q[Reflect(i, h)][Reflect(j, h)];
      assert w[2 * h - 1 - i][j] == q[Reflect(i, h)][Reflect(j, h)];
    }
  }

  /** The weights of a cell are those of its mirror image across the vertical and across the
      horizontal centre line. */
  lemma WeightsMirror(n: int)
    requires ValidSize(n)
    ensures var w := Weights(n).value;
      forall i, j {:trigger w[i][j]} :: 0 <= i < n && 0 <= j < n ==> w[i][j] == w[i][n - 1 - j] && w[i][j] == w[n - 1 - i][j]
  {
    var h := n / 2;
    assert n == 2 * h;
    WeightsFromQuadrant(n);
    ReflectedIsMirrored(Weights(n).value, Quadrant(h), h);
  }

  /** The weights are symmetric about the main diagonal. */
  lemma WeightsTranspose(n: int)
    requires ValidSize(n)
    ensures var w := Weights(n).value;
      forall i, j :: 0 <= i < n && 0 <= j < n ==> w[i][j] == w[j][i]
  {
    WeightsFromQuadrant(n);
    QuadrantTranspose(n / 2);
  }

  /** On 4 x 4 and 6 x 6 boards each quadrant is the corner table cut to size, so every
      corner weighs 100. */
  lemma SmallBoardWeights(n: int)
    requires ValidSize(n) && n <= 6
    ensures var w := Weights(n).value; var h := n / 2;
      && (forall i, j :: 0 <= i < h && 0 <= j < h ==> w[i][j] == Corner[i][j])
      && w[0][0] == 100
  {
    QuadrantValues(n / 2);
  }

  /** On boards of 8 x 8 and more the quadrant is the 4 x 4 block with its last row and column
      repeated outwards, and the cell next to the centre weighs 2. */
  lemma LargeBoardWeights(n: int)
    requires ValidSize(n) && n >= 8
    ensures var w := Weights(n).value; var h := n / 2;
      && (forall i, j :: 0 <= i < h && 0 <= j < h && (i, j) != (h - 1, h - 1) ==> w[i][j] == Corner4[Min(i, 3)][Min(j, 3)])
      && w[h - 1][h - 1] == 2
  {
    QuadrantValues(n / 2);
  }

  /** All four corners weigh 100. */
  lemma CornersWeighted(n: int)
    requires ValidSize(n)
    ensures var w := Weights(n).value;
      w[0][0] == 100 && w[0][n - 1] == 100 && w[n - 1][0] == 100 && w[n - 1][n - 1] == 100
  {
    QuadrantValues(n / 2);
    WeightsMirror(n);
  }
}
