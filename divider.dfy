/**
 * The network's `MatrixDivider(side, size, stride)`: a side × side matrix,
 * stored row by row in a flat list, is cut into size × size windows whose
 * top-left corners lie `stride` apart in both directions. `positions` lists,
 * for every window, the places of its cells in the flat list; `divide` reads
 * those places out of a list.
 */
module Divider {
  import opened Common

  /**
   * `0..n step stride`: 0, stride, 2 × stride, … while at most n; nothing
   * when n is negative.
   */
  function Offsets(n: int, stride: nat): (r: seq<int>)
    requires stride > 0
    ensures n < 0 ==> r == []
    ensures n >= 0 ==> |r| == n / stride + 1
  {
    if n < 0 then [] else seq(n / stride + 1, k requires 0 <= k < n / stride + 1 => k * stride)
  }

  /** The offsets are the multiples of stride from 0 on, every one at most n, and the next multiple would pass n. */
  lemma OffsetsAre(n: int, stride: nat)
    requires stride > 0
    ensures forall k :: 0 <= k < |Offsets(n, stride)| ==> Offsets(n, stride)[k] == k * stride && 0 <= k * stride <= n
    ensures |Offsets(n, stride)| * stride > n
  {
    if n >= 0 {
      var q := n / stride;
      assert q * stride + n % stride == n;
      forall k | 0 <= k < |Offsets(n, stride)|
        ensures 0 <= k * stride <= n
      {
        MulMono(0, k, stride);
        MulMono(k, q, stride);
      }
      MulStep(q + 1, stride);
    }
  }

  /** Offset k is k × stride, and lies between 0 and n. */
  lemma OffsetAt(n: int, stride: nat, k: nat)
    requires stride > 0 && k < |Offsets(n, stride)|
    ensures Offsets(n, stride)[k] == k * stride && 0 <= Offsets(n, stride)[k] <= n
  {
    OffsetsAre(n, stride);
  }

  /** The rows of the window whose top-left corner is row posY, column posX. */
  function WindowRows(side: nat, size: nat, posY: int, posX: int): (r: seq<seq<int>>)
    ensures |r| == size && forall i :: 0 <= i < size ==> |r[i]| == size
  {
    seq(size, i requires 0 <= i < size => seq(size, j requires 0 <= j < size => posY * side + posX + j + i * side))
  }

  /** One window of `positions`: the places of its cells, row by row. */
  function Window(side: nat, size: nat, posY: int, posX: int): (r: seq<int>)
    ensures |r| == size * size
  {
    var rows := WindowRows(side, size, posY, posX);
    FlattenUniformLength(rows, size);
    Flatten(rows)
  }

  /** The windows of `positions` by the row and the column of their corner offsets. */
  function Grid(side: nat, size: nat, stride: nat): (r: seq<seq<seq<int>>>)
    requires stride > 0
    ensures |r| == |Offsets(side - size, stride)|
    ensures forall y :: 0 <= y < |r| ==> |r[y]| == |r|
  {
    var offsets := Offsets(side - size, stride);
    seq(|offsets|, y requires 0 <= y < |offsets| =>
      seq(|offsets|, x requires 0 <= x < |offsets| => Window(side, size, offsets[y], offsets[x])))
  }

  /** `positions`: the windows, by corner row and then corner column. */
  function Positions(side: nat, size: nat, stride: nat): (r: seq<seq<int>>)
    requires stride > 0
  {
    Flatten(Grid(side, size, stride))
  }

  /** `divide(x)`: for every window, the elements of x at its places, in the same shape. */
  function Divide<E>(side: nat, size: nat, stride: nat, x: seq<E>): (r: seq<seq<E>>)
    requires stride > 0 && side * side <= |x|
    ensures |r| == |Positions(side, size, stride)|
    ensures forall k :: 0 <= k < |r| ==> |r[k]| == |Positions(side, size, stride)[k]|
  {
    var positions := Positions(side, size, stride);
    PositionsInRange(side, size, stride);
    seq(|positions|, k requires 0 <= k < |positions| =>
      seq(|positions[k]|, m requires 0 <= m < |positions[k]| => x[positions[k][m]]))
  }

  // ---------------------------------------------------------------------------
  // Properties

  /** There are ((side − size) / stride + 1)² windows when the window fits, none otherwise. */
  lemma PositionsCount(side: nat, size: nat, stride: nat)
    requires stride > 0
    ensures side >= size ==> |Positions(side, size, stride)| == ((side - size) / stride + 1) * ((side - size) / stride + 1)
    ensures side < size ==> Positions(side, size, stride) == []
  {
    var grid := Grid(side, size, stride);
    FlattenUniformLength(grid, |grid|);
  }

  /** Window y × c + x, for c corners a side, has its corner in row y × stride and column x × stride: row-major by corner. */
  lemma PositionsAt(side: nat, size: nat, stride: nat, y: nat, x: nat)
    requires stride > 0 && side >= size
    requires y < (side - size) / stride + 1 && x < (side - size) / stride + 1
    ensures 0 <= y * ((side - size) / stride + 1) + x < |Positions(side, size, stride)|
    ensures Positions(side, size, stride)[y * ((side - size) / stride + 1) + x] == Window(side, size, y * stride, x * stride)
  {
    var grid := Grid(side, size, stride);
    OffsetsAre(side - size, stride);
    FlattenUniform(grid, |grid|, y, x);
  }

  /** Place i × size + j of a window is the cell i rows below and j columns right of its corner. */
  lemma WindowAt(side: nat, size: nat, posY: int, posX: int, i: nat, j: nat)
    requires i < size && j < size
    ensures 0 <= i * size + j < size * size
    ensures Window(side, size, posY, posX)[i * size + j] == (posY + i) * side + posX + j
  {
    var rows := WindowRows(side, size, posY, posX);
    FlattenUniformLength(rows, size);
    FlattenUniform(rows, size, i, j);
    assert posY * side + i * side == (posY + i) * side;
  }

  /** A cell i rows below and j columns right of a corner that leaves room for the window lies in the matrix. */
  lemma CellInMatrix(side: nat, size: nat, posY: nat, posX: nat, i: nat, j: nat)
    requires posY + size <= side && posX + size <= side && i < size && j < size
    ensures 0 <= (posY + i) * side + posX + j < side * side
  {
    MulMono(posY + i, side - 1, side);
    MulStep(side, side);
  }

  /** Every place of a window whose corner leaves room for it lies in the side × side matrix. */
  lemma WindowInRange(side: nat, size: nat, posY: nat, posX: nat)
    requires posY + size <= side && posX + size <= side
    ensures forall m :: 0 <= m < |Window(side, size, posY, posX)| ==> 0 <= Window(side, size, posY, posX)[m] < side * side
  {
    var rows := WindowRows(side, size, posY, posX);
    var w := Window(side, size, posY, posX);
    forall m | 0 <= m < |w|
      ensures 0 <= w[m] < side * side
    {
      assert w[m] in Flatten(rows);
      var i := FlattenSource(rows, w[m]);
      var j :| 0 <= j < size && rows[i][j] == w[m];
      CellInMatrix(side, size, posY, posX, i, j);
      assert posY * side + posX + j + i * side == (posY + i) * side + posX + j;
    }
  }

  /** Offset k of the corners of `positions` leaves room for a window after it. */
  lemma Corner(side: nat, size: nat, stride: nat, k: nat) returns (offset: nat)
    requires stride > 0 && k < |Offsets(side - size, stride)|
    ensures offset == Offsets(side - size, stride)[k] && offset + size <= side
  {
    OffsetAt(side - size, stride, k);
    offset := Offsets(side - size, stride)[k];
  }

  /** Every window `positions` lists has its corner far enough from the edges for the window to fit. */
  lemma PositionsFit(side: nat, size: nat, stride: nat, k: nat) returns (posY: nat, posX: nat)
    requires stride > 0 && k < |Positions(side, size, stride)|
    ensures posY + size <= side && posX + size <= side
    ensures Positions(side, size, stride)[k] == Window(side, size, posY, posX)
  {
    var grid := Grid(side, size, stride);
    var offsets := Offsets(side - size, stride);
    var w := Positions(side, size, stride)[k];
    assert w in Flatten(grid);
    var y := FlattenSource(grid, w);
    assert |grid[y]| == |grid| == |offsets|;
    var x :| 0 <= x < |offsets| && grid[y][x] == w;
    posY := Corner(side, size, stride, y);
    posX := Corner(side, size, stride, x);
  }

  /** Every place `positions` lists lies in the side × side matrix. */
  lemma PositionsInRange(side: nat, size: nat, stride: nat)
    requires stride > 0
    ensures forall k, m :: 0 <= k < |Positions(side, size, stride)| && 0 <= m < |Positions(side, size, stride)[k]| ==>
              0 <= Positions(side, size, stride)[k][m] < side * side
  {
    var positions := Positions(side, size, stride);
    forall k | 0 <= k < |positions|
      ensures forall m :: 0 <= m < |positions[k]| ==> 0 <= positions[k][m] < side * side
    {
      var posY, posX := PositionsFit(side, size, stride, k);
      WindowInRange(side, size, posY, posX);
    }
  }

  /**
   * Cell (i, j) of window (y, x) of `divide(x)` is the matrix element in row
   * y × stride + i and column x × stride + j.
   */
  lemma DivideAt<E>(side: nat, size: nat, stride: nat, v: seq<E>, y: nat, x: nat, i: nat, j: nat)
    requires stride > 0 && side * side <= |v| && side >= size
    requires y < (side - size) / stride + 1 && x < (side - size) / stride + 1 && i < size && j < size
    ensures 0 <= y * ((side - size) / stride + 1) + x < |Divide(side, size, stride, v)|
    ensures 0 <= i * size + j < |Divide(side, size, stride, v)[y * ((side - size) / stride + 1) + x]|
    ensures 0 <= (y * stride + i) * side + x * stride + j < side * side
    ensures Divide(side, size, stride, v)[y * ((side - size) / stride + 1) + x][i * size + j] ==
            v[(y * stride + i) * side + x * stride + j]
  {
    PositionsAt(side, size, stride, y, x);
    WindowAt(side, size, y * stride, x * stride, i, j);
    OffsetAt(side - size, stride, y);
    OffsetAt(side - size, stride, x);
    CellInMatrix(side, size, y * stride, x * stride, i, j);
    DivideReads(side, size, stride, v, y * ((side - size) / stride + 1) + x, i * size + j);
  }

  /** Element m of window k of `divide(v)` is v at place m of window k of `positions`. */
  lemma DivideReads<E>(side: nat, size: nat, stride: nat, v: seq<E>, k: nat, m: nat)
    requires stride > 0 && side * side <= |v|
    requires k < |Positions(side, size, stride)| && m < |Positions(side, size, stride)[k]|
    ensures 0 <= Positions(side, size, stride)[k][m] < |v|
    ensures Divide(side, size, stride, v)[k][m] == v[Positions(side, size, stride)[k][m]]
  {
    PositionsInRange(side, size, stride);
  }
}
