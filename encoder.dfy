/**
 * The network's input encoder, `InputEncoder`: the 32 dark squares of a board
 * vector are laid out again on the 8 × 8 board and read through every square
 * window of side 3 to 8 that fits, each window keeping only its dark squares.
 * Nothing is computed on the values, so the model is generic in their type.
 */
module Encoder {
  import opened Common

  /** The size × size block of an 8-wide board whose top-left cell is x0, as its rows. */
  function ConvRows<T>(input: seq<T>, x0: nat, size: nat): (r: seq<seq<T>>)
    requires size > 0 ==> x0 + 9 * (size - 1) < |input|
    ensures |r| == size && forall i :: 0 <= i < size ==> |r[i]| == size
  {
    seq(size, i requires 0 <= i < size => seq(size, j requires 0 <= j < size => input[x0 + j + 8 * i]))
  }

  /**
   * `conv(input, x0, size)`: the size × size block of an 8-wide board whose
   * top-left cell is x0, read row by row.
   */
  function Conv<T>(input: seq<T>, x0: nat, size: nat): (r: seq<T>)
    requires size > 0 ==> x0 + 9 * (size - 1) < |input|
    ensures |r| == size * size
  {
    var rows := ConvRows(input, x0, size);
    FlattenUniformLength(rows, size);
    Flatten(rows)
  }

  /** Place i × size + j of a window is the cell j columns right of and i rows below its top-left cell. */
  lemma ConvAt<T>(input: seq<T>, x0: nat, size: nat, i: nat, j: nat)
    requires size > 0 ==> x0 + 9 * (size - 1) < |input|
    requires i < size && j < size
    ensures i * size + j < |Conv(input, x0, size)| && Conv(input, x0, size)[i * size + j] == input[x0 + j + 8 * i]
  {
    FlattenUniform(ConvRows(input, x0, size), size, i, j);
  }

  /** The windows of `convMatrix(input, size)` by the row and the column of their top-left cell. */
  function Windows<T>(input: seq<T>, size: nat): (r: seq<seq<seq<T>>>)
    requires 1 <= size <= 8 && |input| >= 64
    ensures |r| == 9 - size
    ensures forall y :: 0 <= y < 9 - size ==> |r[y]| == 9 - size
  {
    seq(9 - size, y requires 0 <= y < 9 - size =>
      seq(9 - size, x requires 0 <= x < 9 - size => Conv(input, x + y * 8, size)))
  }

  /**
   * `convMatrix(input, size)`: every size × size window that fits on the
   * board, ordered by its top-left cell, row by row.
   */
  function ConvMatrix<T>(input: seq<T>, size: nat): (r: seq<seq<T>>)
    requires 1 <= size <= 8 && |input| >= 64
    ensures |r| == (9 - size) * (9 - size)
  {
    var windows := Windows(input, size);
    FlattenUniformLength(windows, 9 - size);
    Flatten(windows)
  }

  /** The windows come row by row of their top-left cell: window y × (9 − size) + x has its corner in row y, column x. */
  lemma ConvMatrixAt<T>(input: seq<T>, size: nat, y: nat, x: nat)
    requires 1 <= size <= 8 && |input| >= 64 && y < 9 - size && x < 9 - size
    ensures y * (9 - size) + x < |ConvMatrix(input, size)|
    ensures ConvMatrix(input, size)[y * (9 - size) + x] == Conv(input, x + 8 * y, size)
  {
    FlattenUniform(Windows(input, size), 9 - size, y, x);
  }

  /** Every window of `convMatrix` is the window at some top-left cell that fits. */
  lemma ConvMatrixHas<T>(input: seq<T>, size: nat, w: seq<T>) returns (y: nat, x: nat)
    requires 1 <= size <= 8 && |input| >= 64 && w in ConvMatrix(input, size)
    ensures y < 9 - size && x < 9 - size && w == Conv(input, x + 8 * y, size)
  {
    var windows := Windows(input, size);
    y := FlattenSource(windows, w);
    var k :| 0 <= k < |windows[y]| && windows[y][k] == w;
    x := k;
  }

  /** One value of `convInput`'s board row i: a light cell before it on an even row, after it on an odd one. */
  function Pair<T>(i: int, v: T): (r: seq<Option<T>>)
    ensures |r| == 2
  {
    if i % 2 == 0 then [None, Some(v)] else [Some(v), None]
  }

  /** The `row.map { … }` of `convInput`'s row i: each value with its light cell. */
  function Pairs<T>(i: int, values: seq<T>): (r: seq<seq<Option<T>>>)
    ensures |r| == |values| && forall m :: 0 <= m < |values| ==> |r[m]| == 2
  {
    seq(|values|, m requires 0 <= m < |values| => Pair(i, values[m]))
  }

  /** Row i of `convInput`'s board, from the row's four values. */
  function BoardRow<T>(i: int, values: seq<T>): (r: seq<Option<T>>)
    ensures |r| == 2 * |values|
  {
    var pairs := Pairs(i, values);
    FlattenUniformLength(pairs, 2);
    Flatten(pairs)
  }

  /** The rows of `convInput`'s board: row i holds values 4i to 4i + 3. */
  function BoardRows<T>(vector: seq<T>): (r: seq<seq<Option<T>>>)
    requires |vector| >= 32
    ensures |r| == 8 && forall i :: 0 <= i < 8 ==> |r[i]| == 8
  {
    seq(8, i requires 0 <= i < 8 => BoardRow(i, vector[4 * i..4 * i + 4]))
  }

  /** `convInput`'s board: the rows one after another, 64 cells. */
  function Board<T>(vector: seq<T>): (r: seq<Option<T>>)
    requires |vector| >= 32
    ensures |r| == 64
  {
    var rows := BoardRows(vector);
    FlattenUniformLength(rows, 8);
    Flatten(rows)
  }

  /**
   * Cell (i, j) of the board is dark when i + j is odd and then holds value
   * 4i + j / 2; a light cell is empty.
   */
  lemma BoardAt<T>(vector: seq<T>, i: nat, j: nat)
    requires |vector| >= 32 && i < 8 && j < 8
    ensures Board(vector)[8 * i + j] == if (i + j) % 2 == 1 then Some(vector[4 * i + j / 2]) else None
  {
    FlattenUniform(BoardRows(vector), 8, i, j);
    RowCellAt(vector, i, j);
    Parity(i, j);
  }

  /** Cell j of board row i is cell j % 2 of the pair made from value 4i + j / 2. */
  lemma RowCellAt<T>(vector: seq<T>, i: nat, j: nat)
    requires |vector| >= 32 && i < 8 && j < 8
    ensures BoardRows(vector)[i][j] == Pair(i, vector[4 * i + j / 2])[j % 2]
  {
    var values := vector[4 * i..4 * i + 4];
    var pairs := Pairs(i, values);
    var h, b := j / 2, j % 2;
    assert j == h * 2 + b;
    FlattenUniform(pairs, 2, h, b);
    assert BoardRows(vector)[i] == Flatten(pairs);
    assert pairs[h] == Pair(i, values[h]) && values[h] == vector[4 * i + h];
  }

  /** A cell is dark when its row and column differ in parity. */
  lemma Parity(i: nat, j: nat)
    ensures (i + j) % 2 == 1 <==> (i % 2 == 0 <==> j % 2 == 1)
  {
    var qi, qj := i / 2, j / 2;
    assert i + j == 2 * (qi + qj) + i % 2 + j % 2;
  }

  /** `map { it.filterNotNull() }`: each window kept to its present cells. */
  function Present<T(!new)>(windows: seq<seq<Option<T>>>): (r: seq<seq<T>>)
    ensures |r| == |windows|
  {
    seq(|windows|, k requires 0 <= k < |windows| => Somes(windows[k]))
  }

  /** `convInput(vector, size)`: the windows of the board, each kept to its dark cells, the empty ones dropped. */
  function ConvInput<T(!new)>(vector: seq<T>, size: nat): (r: seq<seq<T>>)
    requires |vector| >= 32 && 1 <= size <= 8
    ensures |r| <= (9 - size) * (9 - size)
  {
    Filter(Present(ConvMatrix(Board(vector), size)), (w: seq<T>) => w != [])
  }

  /** The windows of sizes `from` to 8, one size after the other: the `flatMap` of `encode` from there on. */
  function EncodeFrom<T(!new)>(vector: seq<T>, from: nat): (r: seq<seq<T>>)
    requires |vector| >= 32 && from >= 1
    decreases 9 - from
  {
    if from > 8 then [] else ConvInput(vector, from) + EncodeFrom(vector, from + 1)
  }

  /** `encode(vector)`: the windows of sizes 3 to 8. */
  function Encode<T(!new)>(vector: seq<T>): (r: seq<seq<T>>)
    requires |vector| >= 32
  {
    EncodeFrom(vector, 3)
  }

  // ---------------------------------------------------------------------------
  // Properties

  /** A window of side 2 or more holds a dark cell of the board: its top row has two neighbouring cells, one of them dark. */
  lemma WindowHasValue<T(!new)>(vector: seq<T>, size: nat, y: nat, x: nat)
    requires |vector| >= 32 && 2 <= size <= 8 && y < 9 - size && x < 9 - size
    ensures Somes(Conv(Board(vector), x + 8 * y, size)) != []
  {
    var board := Board(vector);
    var w := Conv(board, x + 8 * y, size);
    ConvAt(board, x + 8 * y, size, 0, 0);
    ConvAt(board, x + 8 * y, size, 0, 1);
    BoardAt(vector, y, x);
    BoardAt(vector, y, x + 1);
    if board[x + 8 * y].Some? {
      assert w[0] == board[x + 8 * y];
      assert Some(board[x + 8 * y].value) in w;
    } else {
      assert w[1] == board[x + 8 * y + 1];
      assert Some(board[x + 8 * y + 1].value) in w;
    }
  }

  /** Filtering keeps a list whole when every element passes. */
  lemma {:induction false} FilterAll<T(!new)>(s: seq<T>, f: T -> bool)
    requires forall i :: 0 <= i < |s| ==> f(s[i])
    ensures Filter(s, f) == s
  {
    if s != [] {
      FilterAll(s[1..], f);
    }
  }

  /** `convInput` keeps every window: for a side from 2 to 8 there are (9 − size)² of them, in `convMatrix`'s order. */
  lemma ConvInputWindows<T(!new)>(vector: seq<T>, size: nat)
    requires |vector| >= 32 && 2 <= size <= 8
    ensures ConvInput(vector, size) == Present(ConvMatrix(Board(vector), size))
    ensures |ConvInput(vector, size)| == (9 - size) * (9 - size)
  {
    var windows := ConvMatrix(Board(vector), size);
    var kept := Present(windows);
    forall k | 0 <= k < |kept|
      ensures kept[k] != []
    {
      assert windows[k] in windows;
      var y, x := ConvMatrixHas(Board(vector), size, windows[k]);
      WindowHasValue(vector, size, y, x);
    }
    FilterAll(kept, (w: seq<T>) => w != []);
  }

  /** The sum of the squares 1² to n². */
  function SquaresUpTo(n: nat): nat
  {
    if n == 0 then 0 else n * n + SquaresUpTo(n - 1)
  }

  /** The windows of sizes `from` to 8 number (9 − from)² + … + 1². */
  lemma {:induction false} EncodeFromCount<T(!new)>(vector: seq<T>, from: nat)
    requires |vector| >= 32 && 2 <= from <= 9
    ensures |EncodeFrom(vector, from)| == SquaresUpTo(9 - from)
    decreases 9 - from
  {
    if from <= 8 {
      ConvInputWindows(vector, from);
      EncodeFromCount(vector, from + 1);
    }
  }

  /** `encode` gives 36 + 25 + 16 + 9 + 4 + 1 = 91 windows for every board vector, the network's 91 inputs. */
  lemma EncodeCount<T(!new)>(vector: seq<T>)
    requires |vector| >= 32
    ensures |Encode(vector)| == 91
  {
    EncodeFromCount(vector, 3);
    assert SquaresUpTo(6) == 91;
  }

  /** mapNotNull of two lists one after the other. */
  lemma {:induction false} SomesAppend<T(!new)>(a: seq<Option<T>>, b: seq<Option<T>>)
    ensures Somes(a + b) == Somes(a) + Somes(b)
  {
    if a != [] {
      assert (a + b)[0] == a[0];
      assert (a + b)[1..] == a[1..] + b;
      SomesAppend(a[1..], b);
    } else {
      assert a + b == b;
    }
  }

  /** mapNotNull of parts laid end to end is the parts' own present values laid end to end. */
  lemma {:induction false} SomesFlatten<T(!new)>(parts: seq<seq<Option<T>>>)
    ensures Somes(Flatten(parts)) == Flatten(Present(parts))
  {
    if parts != [] {
      var m := |parts| - 1;
      SomesFlatten(parts[..m]);
      SomesAppend(Flatten(parts[..m]), parts[m]);
      var kept := Present(parts);
      assert kept[..m] == Present(parts[..m]);
    }
  }

  /** The present value of one pair of cells is the value. */
  lemma PairValue<T(!new)>(i: int, v: T)
    ensures Somes(Pair(i, v)) == [v]
  {
    if i % 2 == 0 {
      assert Pair(i, v) == [None] + [Some(v)];
      SomesAppend([None], [Some(v)]);
    } else {
      assert Pair(i, v) == [Some(v)] + [None];
      SomesAppend([Some(v)], [None]);
    }
  }

  /** A board row's present values are the row's values, in order. */
  lemma BoardRowValues<T(!new)>(i: int, values: seq<T>)
    ensures Somes(BoardRow(i, values)) == values
  {
    var pairs := Pairs(i, values);
    assert BoardRow(i, values) == Flatten(pairs);
    SomesFlatten(pairs);
    var kept := Present(pairs);
    forall m | 0 <= m < |kept|
      ensures kept[m] == [values[m]]
    {
      PairValue(i, values[m]);
    }
    FlattenUniformLength(kept, 1);
    forall m | 0 <= m < |values|
      ensures Flatten(kept)[m] == values[m]
    {
      FlattenUniform(kept, 1, m, 0);
    }
    assert Flatten(kept) == values;
  }

  /** Value r of board row q is value 4q + r of the vector. */
  lemma RowValueAt<T(!new)>(vector: seq<T>, q: nat, r: nat)
    requires |vector| >= 32 && q < 8 && r < 4
    ensures |Somes(BoardRows(vector)[q])| == 4 && Somes(BoardRows(vector)[q])[r] == vector[4 * q + r]
  {
    var values := vector[4 * q..4 * q + 4];
    BoardRowValues(q, values);
    assert values[r] == vector[4 * q + r];
  }

  /** Every board row keeps four present values. */
  lemma PresentRows<T(!new)>(vector: seq<T>)
    requires |vector| >= 32
    ensures forall i :: 0 <= i < 8 ==> |Present(BoardRows(vector))[i]| == 4
    ensures |Flatten(Present(BoardRows(vector)))| == 32
  {
    forall i | 0 <= i < 8
      ensures |Present(BoardRows(vector))[i]| == 4
    {
      RowValueAt(vector, i, 0);
    }
    FlattenUniformLength(Present(BoardRows(vector)), 4);
  }

  /** Place k of the rows' present values laid end to end is value k of the vector. */
  lemma PresentAt<T(!new)>(vector: seq<T>, k: nat)
    requires |vector| >= 32 && k < 32
    ensures |Flatten(Present(BoardRows(vector)))| == 32 && Flatten(Present(BoardRows(vector)))[k] == vector[k]
  {
    PresentRows(vector);
    var q, r := k / 4, k % 4;
    assert k == q * 4 + r;
    FlattenUniform(Present(BoardRows(vector)), 4, q, r);
    RowValueAt(vector, q, r);
  }

  /** The rows' present values laid end to end are the vector's first 32 values, in order. */
  lemma PresentValues<T(!new)>(vector: seq<T>)
    requires |vector| >= 32
    ensures Flatten(Present(BoardRows(vector))) == vector[..32]
  {
    var kept := Flatten(Present(BoardRows(vector)));
    PresentAt(vector, 0);
    forall k | 0 <= k < 32
      ensures kept[k] == vector[k]
    {
      PresentAt(vector, k);
    }
  }

  /** The board's present values are the vector's first 32 values, in order. */
  lemma BoardValues<T(!new)>(vector: seq<T>)
    requires |vector| >= 32
    ensures Somes(Board(vector)) == vector[..32]
  {
    var rows := BoardRows(vector);
    assert Board(vector) == Flatten(rows);
    SomesFlatten(rows);
    PresentValues(vector);
  }

  /** The one window of side 8 is the whole board, and its present values are the input vector, in order. */
  lemma WholeBoardWindow<T(!new)>(vector: seq<T>)
    requires |vector| >= 32
    ensures ConvInput(vector, 8) == [vector[..32]]
  {
    var board := Board(vector);
    ConvMatrixAt(board, 8, 0, 0);
    forall k | 0 <= k < 64
      ensures Conv(board, 0, 8)[k] == board[k]
    {
      ConvAt(board, 0, 8, k / 8, k % 8);
    }
    assert Conv(board, 0, 8) == board;
    BoardValues(vector);
    ConvInputWindows(vector, 8);
  }
}
