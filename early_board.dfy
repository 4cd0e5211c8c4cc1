/**
 * The earlier engine's board: 64 fields in board order (rank 8 first, files a
 * to h within a rank), each light or dark and each holding at most one
 * checker. A checker's link back to its field is where it stands here, so the
 * board is the sequence of the fields' occupants.
 */
module EarlyBoard {
  import opened Common
  import opened EarlyPosition

  /** `Color.WHITE`: a light field, or a white piece. */
  const White := 0
  /** `Color.BLACK`: a black piece. Dark fields have colour 1 as well. */
  const Black := 1

  /** A piece: its colour, whether it is a queen, and its id. */
  datatype Checker = Checker(color: int, queen: bool, id: int)

  /** A field as `getField` hands it out: its colour, its square and its occupant. */
  datatype Field = Field(color: int, position: Position, checker: Option<Checker>)

  type Cells = seq<Option<Checker>>

  // ---------------------------------------------------------------------------
  // Geometry of the field list

  /** Where square (col, row) stands in board order: `board[7 - row][col]`. */
  function FieldIndex(col: int, row: int): (k: int)
    requires OnBoard(col, row)
    ensures 0 <= k < 64 && k % 8 == col && k / 8 == 7 - row
  {
    (7 - row) * 8 + col
  }

  function Index(p: Position): (k: int)
    requires OnBoardAt(p)
    ensures 0 <= k < 64
  {
    FieldIndex(p.col, p.row)
  }

  /** The square of field k: `board[y - 1][x - 1]` is named by the x-th letter and rank 9 - y. */
  function FieldPosition(k: int): (p: Position)
    requires 0 <= k < 64
    ensures OnBoardAt(p) && Index(p) == k && Canonical(p)
  {
    At(k % 8, 7 - k / 8)
  }

  /** Field k's colour, (x + y) % 2 with x and y its column and row in board order counted from 1. */
  function FieldColor(k: int): int
    requires 0 <= k < 64
  {
    (k % 8 + 1 + k / 8 + 1) % 2
  }

  /** A dark square: its column and row have the same parity, as for a1. */
  predicate Dark(p: Position)
  {
    (p.col + p.row) % 2 == 0
  }

  /** The dark squares are exactly the fields of colour 1; all others have colour 0 (`Color.WHITE`). */
  lemma DarkField(p: Position)
    requires OnBoardAt(p)
    ensures FieldColor(Index(p)) == 1 <==> Dark(p)
    ensures FieldColor(Index(p)) == White <==> !Dark(p)
  {
  }

  /** `getField(p)` reads field `board[7 - p.row][p.col]`: it is the field whose square equals p. */
  lemma FieldOfSquare(p: Position)
    requires OnBoardAt(p)
    ensures SamePlace(FieldPosition(Index(p)), p)
  {
  }

  // ---------------------------------------------------------------------------
  // Occupants

  function Occupant(cs: Cells, p: Position): Option<Checker>
    requires |cs| == 64 && OnBoardAt(p)
  {
    cs[Index(p)]
  }

  /** p is a square of the board and nobody stands on it. */
  predicate IsEmpty(cs: Cells, p: Position)
  {
    |cs| == 64 && OnBoardAt(p) && cs[Index(p)].None?
  }

  /** The number of pieces on the fields. */
  function Count(cs: Cells): (n: nat)
    ensures n <= |cs|
  {
    if cs == [] then 0 else (if cs[0].Some? then 1 else 0) + Count(cs[1..])
  }

  /** Replacing one occupant changes the count by what leaves and what arrives. */
  lemma {:induction false} CountUpdate(cs: Cells, k: int, x: Option<Checker>)
    requires 0 <= k < |cs|
    ensures Count(cs[k := x]) == Count(cs) - (if cs[k].Some? then 1 else 0) + (if x.Some? then 1 else 0)
  {
    if k > 0 {
      assert cs[k := x][1..] == cs[1..][k - 1 := x];
      CountUpdate(cs[1..], k - 1, x);
    }
  }

  /** Two field lists with pieces on the same fields hold the same number of pieces. */
  lemma {:induction false} CountSameFields(cs: Cells, ds: Cells)
    requires |cs| == |ds| && forall k :: 0 <= k < |cs| ==> (cs[k].Some? <==> ds[k].Some?)
    ensures Count(cs) == Count(ds)
  {
    if cs != [] {
      CountSameFields(cs[1..], ds[1..]);
    }
  }

  /** Fields that are all empty hold no piece. */
  lemma {:induction false} CountNone(cs: Cells)
    requires forall k :: 0 <= k < |cs| ==> cs[k].None?
    ensures Count(cs) == 0
  {
    if cs != [] {
      CountNone(cs[1..]);
    }
  }

  // ---------------------------------------------------------------------------
  // The operations, as values

  /** Whether `place(checker, ...)` takes field k: never a light field, and an occupied one only to empty it. */
  predicate Accepts(cs: Cells, c: Option<Checker>, k: int)
    requires |cs| == 64 && 0 <= k < 64
  {
    FieldColor(k) != White && (cs[k].None? || c.None?)
  }

  /** The fields after `place(checker, ...)` on field k. */
  function Placed(cs: Cells, c: Option<Checker>, k: int): (r: Cells)
    requires |cs| == 64 && 0 <= k < 64
    ensures |r| == 64
    ensures r[k] == if Accepts(cs, c, k) then c else cs[k]
    ensures forall j :: 0 <= j < 64 && j != k ==> r[j] == cs[j]
  {
    if Accepts(cs, c, k) then cs[k := c] else cs
  }

  /** The fields after `move` from field i to field j: i is emptied and j gets its former occupant. */
  function Moved(cs: Cells, i: int, j: int): (r: Cells)
    requires |cs| == 64 && 0 <= i < 64 && 0 <= j < 64
    ensures |r| == 64 && r[j] == cs[i]
    ensures i != j ==> r[i].None?
    ensures forall k :: 0 <= k < 64 && k != i && k != j ==> r[k] == cs[k]
  {
    cs[i := None][j := cs[i]]
  }

  /**
   * The fields of `clone()`: fresh checkers of the same colours and ids on the
   * same fields. The queen flag is not copied, so every copy is a man.
   */
  function Cloned(cs: Cells): (r: Cells)
    ensures |r| == |cs|
    ensures forall k :: 0 <= k < |cs| ==> (r[k].Some? <==> cs[k].Some?)
    ensures forall k :: 0 <= k < |cs| && cs[k].Some? ==>
      r[k].value.color == cs[k].value.color && r[k].value.id == cs[k].value.id && !r[k].value.queen
  {
    seq(|cs|, k requires 0 <= k < |cs| => if cs[k].None? then None else Some(Checker(cs[k].value.color, false, cs[k].value.id)))
  }

  /** A clone holds as many pieces as the original, and cloning a clone changes nothing. */
  lemma ClonedFacts(cs: Cells)
    ensures Count(Cloned(cs)) == Count(cs)
    ensures Cloned(Cloned(cs)) == Cloned(cs)
  {
    CountSameFields(cs, Cloned(cs));
  }

  // ---------------------------------------------------------------------------
  // Listing pieces

  /** A checker together with the square its field link points to. */
  datatype Piece = Piece(at: Position, checker: Checker)

  /** `getCheckers(color)` from field k on: that colour's checkers with their squares, in board order. */
  function CheckersFrom(cs: Cells, color: int, k: nat): (r: seq<Piece>)
    requires |cs| == 64
    ensures forall i :: 0 <= i < |r| ==> OnBoardAt(r[i].at) && k <= Index(r[i].at) && Canonical(r[i].at)
    ensures forall i, j :: 0 <= i < j < |r| ==> Index(r[i].at) < Index(r[j].at)
    ensures forall i :: 0 <= i < |r| ==> cs[Index(r[i].at)] == Some(r[i].checker) && r[i].checker.color == color
    decreases 64 - k
  {
    if k >= 64 then []
    else
      var rest := CheckersFrom(cs, color, k + 1);
      if cs[k].Some? && cs[k].value.color == color then [Piece(FieldPosition(k), cs[k].value)] + rest else rest
  }

  /** Every checker of the colour from field k on is listed. */
  lemma {:induction false} CheckersFromComplete(cs: Cells, color: int, k: nat, m: int)
    requires |cs| == 64 && k <= m < 64 && cs[m].Some? && cs[m].value.color == color
    ensures Piece(FieldPosition(m), cs[m].value) in CheckersFrom(cs, color, k)
    decreases 64 - k
  {
    if k < m {
      CheckersFromComplete(cs, color, k + 1, m);
    }
  }

  // ---------------------------------------------------------------------------
  // The vector encoding

  /** A field's entry in `encodeToVector`: 0 when empty, 1 for a white and -1 for a black man, times 3 for a queen. */
  function PieceCode(c: Option<Checker>): (v: int)
    ensures c.None? <==> v == 0
    ensures c.Some? && c.value.color == White ==> v > 0
    ensures c.Some? && c.value.color != White ==> v < 0
    ensures c.Some? ==> (c.value.queen <==> v == 3 || v == -3)
  {
    if c.None? then 0
    else (if c.value.color == 0 then 1 else -1) * (if c.value.queen then 3 else 1)
  }

  /** Field k is dark: it has colour 1. */
  predicate IsDarkField(k: int)
  {
    0 <= k < 64 && FieldColor(k) == 1
  }

  /** The dark fields from field k on, in board order: `filter { it.color == 1 }` of the flattened board. */
  function DarkFrom(k: nat): (r: seq<int>)
    requires k <= 64
    ensures forall i :: 0 <= i < |r| ==> k <= r[i] && IsDarkField(r[i])
    ensures forall i, j :: 0 <= i < j < |r| ==> r[i] < r[j]
    decreases 64 - k
  {
    if k == 64 then [] else (if FieldColor(k) == 1 then [k] else []) + DarkFrom(k + 1)
  }

  /** Every dark field from k on is listed. */
  lemma {:induction false} DarkFromComplete(k: nat, m: int)
    requires k <= m && IsDarkField(m)
    ensures m in DarkFrom(k)
    decreases 64 - k
  {
    if k < m {
      DarkFromComplete(k + 1, m);
    }
  }

  /** Fields 2h and 2h + 1 lie in the same rank, so exactly one of them is dark. */
  lemma ColorAlternates(h: int)
    requires 0 <= h < 32
    ensures FieldColor(2 * h + 1) == 1 - FieldColor(2 * h)
  {
    assert (2 * h + 1) / 8 == (2 * h) / 8 && (2 * h + 1) % 8 == (2 * h) % 8 + 1;
  }

  lemma DarkPairCount(h: int)
    requires 0 <= h < 32
    ensures |DarkFrom(2 * h)| == 1 + |DarkFrom(2 * h + 2)|
  {
    ColorAlternates(h);
  }

  /** From field 2h on there are 32 - h dark fields; the board has 32. */
  lemma {:induction false} DarkCount(h: int)
    requires 0 <= h <= 32
    ensures |DarkFrom(2 * h)| == 32 - h
    decreases 32 - h
  {
    if h < 32 {
      DarkPairCount(h);
      DarkCount(h + 1);
    }
  }

  /**
   * `encodeToVector()`: one entry per dark field, 32 in all, in board order;
   * entry j encodes the occupant of the j-th dark field.
   */
  function Encode(cs: Cells): (v: seq<int>)
    requires |cs| == 64
    ensures |v| == 32 == |DarkFrom(0)|
    ensures forall j :: 0 <= j < 32 ==> v[j] == PieceCode(cs[DarkFrom(0)[j]])
  {
    DarkCount(0);
    var ks := DarkFrom(0);
    seq(|ks|, j requires 0 <= j < |ks| => PieceCode(cs[ks[j]]))
  }

  /** Every dark field has its entry in the vector (and by DarkFrom only dark fields have one). */
  lemma EncodeCoversDark(cs: Cells, k: int)
    requires |cs| == 64 && IsDarkField(k)
    ensures exists j :: 0 <= j < |Encode(cs)| && DarkFrom(0)[j] == k && Encode(cs)[j] == PieceCode(cs[k])
  {
    DarkFromComplete(0, k);
  }

  // ---------------------------------------------------------------------------
  // The starting position

  /** The square (col, row) is dark: a dark field in board order. */
  lemma DarkSquareAt(col: int, row: int)
    requires OnBoard(col, row)
    ensures FieldColor(FieldIndex(col, row)) == 1 <==> (col + row) % 2 == 0
    ensures FieldColor(FieldIndex(col, row)) == White <==> (col + row) % 2 != 0
  {
    DarkField(At(col, row));
  }

  /**
   * What `create()` puts on square (col, row) when the id counter starts at g:
   * the letters are visited in order, and for each the white men of ranks 1 to
   * 3 and then the black men of ranks 6 to 8 each draw the next id, whether or
   * not `place` accepts them. Only dark squares keep their man.
   */
  function StartCell(g: int, col: int, row: int): Option<Checker>
  {
    if (col + row) % 2 != 0 then None
    else if 0 <= row <= 2 then Some(Checker(White, false, g + 6 * col + row))
    else if 5 <= row <= 7 then Some(Checker(Black, false, g + 6 * col + row - 2))
    else None
  }

  /** The fields of `create()`, in board order. */
  function StartCells(g: int): (cs: Cells)
    ensures |cs| == 64
    ensures forall col, row :: OnBoard(col, row) ==> cs[FieldIndex(col, row)] == StartCell(g, col, row)
  {
    seq(64, k requires 0 <= k < 64 => StartCell(g, k % 8, 7 - k / 8))
  }

  /** In the starting position white men stand exactly on the dark squares of ranks 1 to 3, black men on those of ranks 6 to 8, and every id is used once. */
  lemma StartCellFacts(g: int, col: int, row: int, col2: int, row2: int)
    requires OnBoard(col, row) && OnBoard(col2, row2)
    ensures StartCell(g, col, row).Some? <==> Dark(At(col, row)) && (row <= 2 || row >= 5)
    ensures StartCell(g, col, row).Some? ==> !StartCell(g, col, row).value.queen
    ensures StartCell(g, col, row).Some? ==> (StartCell(g, col, row).value.color == White <==> row <= 2)
    ensures (StartCell(g, col, row).Some? && StartCell(g, col2, row2).Some? &&
             StartCell(g, col, row).value.id == StartCell(g, col2, row2).value.id) ==> col == col2 && row == row2
  {
  }

  // ---------------------------------------------------------------------------
  // The board object

  /** `Checkerboard`: the fields, whose occupants the operations change in place. */
  class Checkerboard {
    var cells: Cells

    ghost predicate Valid()
      reads this
    {
      |cells| == 64
    }

    /** `Checkerboard()`: fresh empty fields. */
    constructor ()
      ensures Valid() && Count(cells) == 0
      ensures forall k :: 0 <= k < 64 ==> cells[k].None?
    {
      cells := seq(64, k => None);
      new;
      CountNone(cells);
    }

    /** `Checkerboard(board)`: a board over the given fields. */
    constructor FromCells(cs: Cells)
      requires |cs| == 64
      ensures Valid() && cells == cs
    {
      cells := cs;
    }

    /** `getField(p)`: the field of square p; None off the board, where the source throws. */
    function GetField(p: Position): (r: Option<Field>)
      reads this
      requires Valid()
      ensures r.Some? <==> OnBoardAt(p)
      ensures r.Some? ==> SamePlace(r.value.position, p) && r.value.checker == Occupant(cells, p)
      ensures r.Some? ==> (r.value.color == 1 <==> Dark(p))
    {
      if OnBoardAt(p) then
        DarkField(p);
        Some(Field(FieldColor(Index(p)), FieldPosition(Index(p)), cells[Index(p)]))
      else None
    }

    /** `getCheckers(color)`: that colour's checkers with their squares, in board order. */
    function GetCheckers(color: int): (r: seq<Piece>)
      reads this
      requires Valid()
      ensures forall i :: 0 <= i < |r| ==> OnBoardAt(r[i].at) && Occupant(cells, r[i].at) == Some(r[i].checker) && r[i].checker.color == color
      ensures forall i, j :: 0 <= i < j < |r| ==> Index(r[i].at) < Index(r[j].at)
    {
      CheckersFrom(cells, color, 0)
    }

    /** `encodeToVector()`. */
    function EncodeToVector(): (v: seq<int>)
      reads this
      requires Valid()
      ensures |v| == 32
      ensures |v| == 32 == |DarkFrom(0)|
      ensures forall j :: 0 <= j < 32 ==> v[j] == PieceCode(cells[DarkFrom(0)[j]])
    {
      Encode(cells)
    }

    /**
     * `place(checker, to)`. `ok` is false where the source throws (a malformed
     * or off-board name); `placed` says whether a field was returned. A light
     * field, or an occupied field offered a piece, is left as it was.
     */
    method Place(c: Option<Checker>, to: string) returns (ok: bool, placed: bool)
      requires Valid()
      modifies this
      ensures Valid()
      ensures ok <==> NewPosition(to).Some? && OnBoardAt(NewPosition(to).value)
      ensures placed <==> ok && Accepts(old(cells), c, Index(NewPosition(to).value))
      ensures ok ==> cells == Placed(old(cells), c, Index(NewPosition(to).value))
      ensures !ok ==> cells == old(cells)
    {
      var p := NewPosition(to);
      if p.None? || !OnBoardAt(p.value) {
        return false, false;
      }
      var k := Index(p.value);
      ok := true;
      if FieldColor(k) == White || (cells[k].Some? && c.Some?) {
        return ok, false;
      }
      cells := cells[k := c];
      placed := true;
    }

    /** `remove(p)`: `place(null, p)`, which empties a dark field and leaves a light one alone. */
    method Remove(p: Position) returns (ok: bool)
      requires Valid() && EarlyPosition.Valid(p)
      modifies this
      ensures Valid()
      ensures ok <==> OnBoardAt(p)
      ensures ok ==> cells == Placed(old(cells), None, Index(p))
      ensures !ok ==> cells == old(cells)
      ensures ok && Dark(p) ==> Count(cells) == Count(old(cells)) - (if old(cells)[Index(p)].Some? then 1 else 0)
    {
      var placed;
      ok, placed := Place(None, p.text);
      if ok && Dark(p) {
        DarkField(p);
        CountUpdate(old(cells), Index(p), None);
      }
    }

    /**
     * `move(from, to)`: `from` is emptied and `to` receives its former
     * occupant, which is returned. `ok` is false where the source throws: a
     * malformed or off-board name, or nobody on `from`; nothing changes then.
     */
    method Move(from: string, to: string) returns (ok: bool, moved: Checker)
      requires Valid()
      modifies this
      ensures Valid()
      ensures ok <==> NewPosition(from).Some? && OnBoardAt(NewPosition(from).value) &&
                      NewPosition(to).Some? && OnBoardAt(NewPosition(to).value) &&
                      Occupant(old(cells), NewPosition(from).value).Some?
      ensures ok ==> moved == Occupant(old(cells), NewPosition(from).value).value
      ensures ok ==> cells == Moved(old(cells), Index(NewPosition(from).value), Index(NewPosition(to).value))
      ensures !ok ==> cells == old(cells)
    {
      var a := NewPosition(from);
      var b := NewPosition(to);
      if a.None? || !OnBoardAt(a.value) || b.None? || !OnBoardAt(b.value) {
        return false, Checker(0, false, 0);
      }
      var i := Index(a.value);
      var j := Index(b.value);
      if cells[i].None? {
        return false, Checker(0, false, 0);
      }
      moved := cells[i].value;
      cells := cells[i := None];
      cells := cells[j := Some(moved)];
      ok := true;
    }

    /** `clone()`: a fresh board whose fields hold copies of these checkers, without their queen flags. */
    method Clone() returns (b: Checkerboard)
      requires Valid()
      ensures fresh(b) && b.Valid() && b.cells == Cloned(cells)
    {
      b := new Checkerboard.FromCells(Cloned(cells));
    }

    /**
     * `placeChecker(to, color)` inside `create()`: a new man with the next id
     * is offered to square `to`.
     */
    static method PlaceChecker(b: Checkerboard, col: int, row: int, color: int, id: int)
      requires b.Valid() && OnBoard(col, row)
      requires b.cells[FieldIndex(col, row)].None?
      modifies b
      ensures b.Valid()
      ensures b.cells == old(b.cells)[FieldIndex(col, row) := if (col + row) % 2 == 0 then Some(Checker(color, false, id)) else None]
    {
      var to := At(col, row);
      AtValid(col, row);
      DarkSquareAt(col, row);
      var ok, placed := b.Place(Some(Checker(color, false, id)), to.text);
    }

    /**
     * `create()`: a new board with the starting position. The global id
     * counter is the parameter `firstId`; `nextId` is its value afterwards.
     */
    static method Create(firstId: int) returns (b: Checkerboard, nextId: int)
      ensures fresh(b) && b.Valid()
      ensures b.cells == StartCells(firstId)
      ensures nextId == firstId + 48
    {
      b := new Checkerboard();
      var id := firstId;
      for col := 0 to 8
        invariant b.Valid() && id == firstId + 6 * col
        invariant forall c, r :: OnBoard(c, r) ==> b.cells[FieldIndex(c, r)] == if c < col then StartCell(firstId, c, r) else None
      {
        for y := 1 to 4
          invariant b.Valid() && id == firstId + 6 * col + y - 1
          invariant forall c, r :: OnBoard(c, r) ==>
            b.cells[FieldIndex(c, r)] == if c < col || (c == col && r < y - 1) then StartCell(firstId, c, r) else None
        {
          PlaceChecker(b, col, y - 1, White, id);
          id := id + 1;
        }
        for y := 6 to 9
          invariant b.Valid() && id == firstId + 6 * col + y - 3
          invariant forall c, r :: OnBoard(c, r) ==>
            b.cells[FieldIndex(c, r)] == if c < col || (c == col && (r < 3 || 5 <= r < y - 1)) then StartCell(firstId, c, r) else None
        {
          PlaceChecker(b, col, y - 1, Black, id);
          id := id + 1;
        }
      }
      nextId := id;
      forall k | 0 <= k < 64
        ensures b.cells[k] == StartCells(firstId)[k]
      {
        assert k == FieldIndex(k % 8, 7 - k / 8);
      }
    }
  }
}
