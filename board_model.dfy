// The board of the reference engine: pieces, fields, algebraic square names
// and the mutable 64-field board with promotion on placement.

module BoardModel {
  import opened Common

  /** A piece: colour 0 is white and 1 is black; kind 0 is a man and 1 a king. */
  datatype BoardChecker = BoardChecker(color: int, kind: int)

  /** A square of the board with its coordinates, its colour and its occupant. */
  datatype BoardField = BoardField(x: int, y: int, color: int, checker: Option<BoardChecker>)

  /** A square named by column x (a = 1) and row y; equality is equality of both coordinates. */
  datatype BoardPosition = BoardPosition(x: int, y: int)

  predicate OnBoard(p: BoardPosition) { 1 <= p.x <= 8 && 1 <= p.y <= 8 }

  /** The place of a square in the board's field list: row by row from y = 1, then by x. */
  function Index(p: BoardPosition): (i: nat)
    requires OnBoard(p)
    ensures i < 64 && i % 8 == p.x - 1 && i / 8 == p.y - 1
  {
    (p.y - 1) * 8 + (p.x - 1)
  }

  function PositionOfIndex(i: int): (p: BoardPosition)
    requires 0 <= i < 64
    ensures OnBoard(p) && Index(p) == i
  {
    BoardPosition(i % 8 + 1, i / 8 + 1)
  }

  /** Colour of square (x, y): 1 on the dark squares, where play happens, 0 on the light ones. */
  function SquareColor(x: int, y: int): int { (x + y + 1) % 2 }

  /** The board's field list: one field per square, in row-major order, coloured by SquareColor. */
  predicate Layout(fs: seq<BoardField>)
  {
    |fs| == 64 &&
    forall i :: 0 <= i < 64 ==>
      fs[i].x == i % 8 + 1 && fs[i].y == i / 8 + 1 && fs[i].color == SquareColor(i % 8 + 1, i / 8 + 1)
  }

  /** Two field lists that differ at most in their occupants. */
  predicate SameSquares(fs: seq<BoardField>, gs: seq<BoardField>)
  {
    |fs| == |gs| && forall i :: 0 <= i < |fs| ==> fs[i].(checker := None) == gs[i].(checker := None)
  }

  lemma SameSquaresLayout(fs: seq<BoardField>, gs: seq<BoardField>)
    requires Layout(fs) && SameSquares(fs, gs)
    ensures Layout(gs)
  {
    forall i | 0 <= i < 64
      ensures gs[i].x == i % 8 + 1 && gs[i].y == i / 8 + 1 && gs[i].color == SquareColor(i % 8 + 1, i / 8 + 1)
    {
      assert fs[i].(checker := None) == gs[i].(checker := None);
    }
  }

  /** The fields of a fresh board: every square present, every square empty. */
  function EmptyFields(): (fs: seq<BoardField>)
    ensures Layout(fs)
    ensures forall i :: 0 <= i < 64 ==> fs[i].checker == None
  {
    seq(64, i requires 0 <= i < 64 => BoardField(i % 8 + 1, i / 8 + 1, SquareColor(i % 8 + 1, i / 8 + 1), None))
  }

  /** `board.find { it.x == x && it.y == y }`: the first field with those coordinates. */
  function Find(fs: seq<BoardField>, x: int, y: int): (r: Option<BoardField>)
    ensures r.Some? ==> r.value in fs && r.value.x == x && r.value.y == y
    ensures r.None? ==> forall i :: 0 <= i < |fs| ==> !(fs[i].x == x && fs[i].y == y)
    ensures r.Some? ==> exists i :: 0 <= i < |fs| && fs[i] == r.value && FirstAt(fs, x, y, i)
  {
    if fs == [] then None
    else if fs[0].x == x && fs[0].y == y then Some(fs[0])
    else
      var r := Find(fs[1..], x, y);
      assert forall i :: 1 <= i < |fs| ==> fs[i] == fs[1..][i - 1];
      FirstAtShift(fs, x, y);
      r
  }

  /** No field before place i has coordinates (x, y). */
  ghost predicate FirstAt(fs: seq<BoardField>, x: int, y: int, i: int)
    requires 0 <= i <= |fs|
  {
    forall j :: 0 <= j < i ==> !(fs[j].x == x && fs[j].y == y)
  }

  /** Behind a first field without coordinates (x, y), a first match in the tail is a first match in fs. */
  lemma FirstAtShift(fs: seq<BoardField>, x: int, y: int)
    requires |fs| >= 1 && !(fs[0].x == x && fs[0].y == y)
    ensures forall i :: 0 <= i < |fs| - 1 && FirstAt(fs[1..], x, y, i) ==> FirstAt(fs, x, y, i + 1)
  {
    forall i | 0 <= i < |fs| - 1 && FirstAt(fs[1..], x, y, i)
      ensures FirstAt(fs, x, y, i + 1)
    {
      forall j | 0 <= j < i + 1
        ensures !(fs[j].x == x && fs[j].y == y)
      {
        if j > 0 { assert fs[j] == fs[1..][j - 1]; }
      }
    }
  }

  /** On a laid-out board the search finds a field exactly for the squares on the board, at Index. */
  lemma FindOnLayout(fs: seq<BoardField>, x: int, y: int)
    requires Layout(fs)
    ensures Find(fs, x, y) == if OnBoard(BoardPosition(x, y)) then Some(fs[Index(BoardPosition(x, y))]) else None
  {
    var p := BoardPosition(x, y);
    if OnBoard(p) {
      assert fs[Index(p)].x == x && fs[Index(p)].y == y;
    }
    var r := Find(fs, x, y);
    if r.Some? {
      var j :| 0 <= j < |fs| && fs[j] == r.value;
      assert OnBoard(p) && j == Index(p);
    }
  }

  /** `board.get(p)?.checker`: the piece on p, None for an empty or off-board square. */
  function Occupant(fs: seq<BoardField>, p: BoardPosition): Option<BoardChecker>
    requires |fs| == 64
  {
    if OnBoard(p) then fs[Index(p)].checker else None
  }

  /** Occupant is what the field search of `get` yields. */
  lemma OccupantIsGet(fs: seq<BoardField>, p: BoardPosition)
    requires Layout(fs)
    ensures Occupant(fs, p) == match Find(fs, p.x, p.y) case Some(f) => f.checker case None => None
  {
    FindOnLayout(fs, p.x, p.y);
  }

  /** The other side: 1 - color, as `nextColor` is computed. */
  function Opponent(color: int): int { 1 - color }

  predicate PromotionRow(color: int, y: int)
  {
    (y == 8 && color == 0) || (y == 1 && color == 1)
  }

  /** What `place` stores on row y: a man of either colour reaching its far row becomes a king. */
  function Promoted(c: Option<BoardChecker>, y: int): (r: Option<BoardChecker>)
    ensures r.None? <==> c.None?
    ensures c.Some? ==> r.value.color == c.value.color
    ensures r != c <==> (c.Some? && c.value.kind == 0 && PromotionRow(c.value.color, y))
    ensures r != c ==> r.value.kind == 1
  {
    if c.Some? && c.value.kind == 0 && PromotionRow(c.value.color, y) then Some(c.value.(kind := 1)) else c
  }

  /** The fields with the occupant of the on-board square p replaced by c. */
  function Put(fs: seq<BoardField>, p: BoardPosition, c: Option<BoardChecker>): (r: seq<BoardField>)
    requires Layout(fs) && OnBoard(p)
    ensures Layout(r) && SameSquares(fs, r)
    ensures Occupant(r, p) == c
    ensures forall q :: q != p ==> Occupant(r, q) == Occupant(fs, q)
  {
    var r := fs[Index(p) := fs[Index(p)].(checker := c)];
    assert SameSquares(fs, r);
    SameSquaresLayout(fs, r);
    r
  }

  /**
   * The fields after `place(p, c)`: None when p is off the board (the source throws);
   * otherwise square p holds c, promoted on its far row, and no other square changes.
   */
  function PlaceSpec(fs: seq<BoardField>, p: BoardPosition, c: Option<BoardChecker>): (r: Option<seq<BoardField>>)
    requires Layout(fs)
    ensures r.Some? <==> OnBoard(p)
    ensures r.Some? ==> Layout(r.value) && SameSquares(fs, r.value)
    ensures r.Some? ==> Occupant(r.value, p) == Promoted(c, p.y)
    ensures r.Some? ==> forall q :: q != p ==> Occupant(r.value, q) == Occupant(fs, q)
  {
    if OnBoard(p) then Some(Put(fs, p, Promoted(c, p.y))) else None
  }

  // ---------------------------------------------------------------------------
  // Algebraic square names

  /**
   * `BoardPosition(s)`: the letter a..h gives x = 1..8 and the second character,
   * read as a number, gives y; characters after the second are ignored. None
   * where the source throws: a string shorter than two, a first character
   * outside a..h, or a second character that is not a digit.
   */
  function ParsePosition(s: string): (r: Option<BoardPosition>)
    ensures r.Some? ==> 1 <= r.value.x <= 8 && 0 <= r.value.y <= 9
  {
    if |s| >= 2 && 'a' <= s[0] <= 'h' && IsDigit(s[1]) then
      Some(BoardPosition(s[0] as int - 'a' as int + 1, DigitValue(s[1])))
    else None
  }

  /** `toString`: the letter 'a' + x - 1 followed by y in decimal. */
  function PositionText(p: BoardPosition): (s: string)
    requires 0 <= 96 + p.x < 0xD800
    ensures |s| >= 2 && s[0] as int == 96 + p.x
    ensures s[1..] == IntText(p.y)
  {
    [(96 + p.x) as char] + IntText(p.y)
  }

  /** Printing a square whose y is one digit and parsing the text gives the square back. */
  lemma ParsePrinted(p: BoardPosition)
    requires 1 <= p.x <= 8 && 0 <= p.y <= 9
    ensures ParsePosition(PositionText(p)) == Some(p)
    ensures |PositionText(p)| == 2
  {
  }

  /** A two-character name that parses is printed back exactly. */
  lemma PrintParsed(s: string)
    requires |s| == 2 && ParsePosition(s).Some?
    ensures PositionText(ParsePosition(s).value) == s
  {
    var p := ParsePosition(s).value;
    assert PositionText(p) == [s[0]] + [DigitChar(p.y)];
  }

  /** Parsing reads only the first two characters. */
  lemma ParseIgnoresTail(s: string, t: string)
    requires |s| >= 2
    ensures ParsePosition(s + t) == ParsePosition(s)
  {
    assert (s + t)[0] == s[0] && (s + t)[1] == s[1];
  }

  // ---------------------------------------------------------------------------
  // Listing pieces

  /** `getCheckers(color)` from field k on: positions of that colour's pieces in field order. */
  function CheckersFrom(fs: seq<BoardField>, color: int, k: nat): (r: seq<BoardPosition>)
    requires Layout(fs)
    ensures |r| <= if k <= 64 then 64 - k else 0
    ensures forall i :: 0 <= i < |r| ==> OnBoard(r[i]) && k <= Index(r[i])
    ensures forall i, j :: 0 <= i < j < |r| ==> Index(r[i]) < Index(r[j])
    decreases 64 - k
  {
    if k >= 64 then []
    else
      var rest := CheckersFrom(fs, color, k + 1);
      var p := PositionOfIndex(k);
      if fs[k].checker.Some? && fs[k].checker.value.color == color then [p] + rest else rest
  }

  /** The listed positions from field k on are exactly the squares from k on holding that colour. */
  lemma {:induction false} CheckersFromMembers(fs: seq<BoardField>, color: int, k: nat, p: BoardPosition)
    requires Layout(fs)
    ensures p in CheckersFrom(fs, color, k) <==>
      (OnBoard(p) && k <= Index(p) && Occupant(fs, p).Some? && Occupant(fs, p).value.color == color)
    decreases 64 - k
  {
    if k < 64 {
      CheckersFromMembers(fs, color, k + 1, p);
      assert OnBoard(p) && Index(p) == k ==> p == PositionOfIndex(k);
    }
  }

  /** Positions of the pieces of one colour in row-major order. */
  function CheckersOf(fs: seq<BoardField>, color: int): (r: seq<BoardPosition>)
    requires Layout(fs)
    ensures |r| <= 64
    ensures forall i :: 0 <= i < |r| ==> OnBoard(r[i])
    ensures forall i, j :: 0 <= i < j < |r| ==> Index(r[i]) < Index(r[j])
    ensures forall p :: p in r <==> (OnBoard(p) && Occupant(fs, p).Some? && Occupant(fs, p).value.color == color)
  {
    forall p
      ensures p in CheckersFrom(fs, color, 0) <==> (OnBoard(p) && Occupant(fs, p).Some? && Occupant(fs, p).value.color == color)
    {
      CheckersFromMembers(fs, color, 0, p);
    }
    CheckersFrom(fs, color, 0)
  }

  // ---------------------------------------------------------------------------
  // Operations of the board, as values

  /** The fields after `move(from, to)`; None where the source throws. */
  function MoveSpec(fs: seq<BoardField>, from: string, to: string): (r: Option<seq<BoardField>>)
    requires Layout(fs)
    ensures r.Some? <==> ParsePosition(from).Some? && OnBoard(ParsePosition(from).value) &&
                         ParsePosition(to).Some? && OnBoard(ParsePosition(to).value)
    ensures r.Some? ==> Layout(r.value) && SameSquares(fs, r.value)
    ensures r.Some? ==> Occupant(r.value, ParsePosition(to).value) ==
                        Promoted(Occupant(fs, ParsePosition(from).value), ParsePosition(to).value.y)
    ensures r.Some? && ParsePosition(from) != ParsePosition(to) ==> Occupant(r.value, ParsePosition(from).value) == None
    ensures r.Some? ==> forall q :: q != ParsePosition(from).value && q != ParsePosition(to).value ==>
                          Occupant(r.value, q) == Occupant(fs, q)
  {
    match ParsePosition(from)
    case None => None
    case Some(f) =>
      if !OnBoard(f) then None
      else
        match ParsePosition(to)
        case None => None
        case Some(t) => PlaceSpec(Put(fs, f, None), t, Occupant(fs, f))
  }

  predicate InRect(q: BoardPosition, a: BoardPosition, b: BoardPosition)
  {
    (if a.x <= b.x then a.x <= q.x <= b.x else b.x <= q.x <= a.x) &&
    (if a.y <= b.y then a.y <= q.y <= b.y else b.y <= q.y <= a.y)
  }

  /**
   * The fields after the private `remove(from, to)`: every square of the
   * inclusive bounding rectangle of the two squares is emptied; None when the
   * rectangle reaches off the board (the source throws on the first such square).
   */
  function ClearRect(fs: seq<BoardField>, a: BoardPosition, b: BoardPosition): (r: Option<seq<BoardField>>)
    requires Layout(fs)
    ensures r.Some? <==> OnBoard(a) && OnBoard(b)
    ensures r.Some? ==> Layout(r.value) && SameSquares(fs, r.value)
    ensures r.Some? ==> forall i :: 0 <= i < 64 ==>
      r.value[i].checker == (if InRect(PositionOfIndex(i), a, b) then None else fs[i].checker)
  {
    if OnBoard(a) && OnBoard(b) then
      var r := seq(64, i requires 0 <= i < 64 => if InRect(PositionOfIndex(i), a, b) then fs[i].(checker := None) else fs[i]);
      assert SameSquares(fs, r);
      SameSquaresLayout(fs, r);
      Some(r)
    else None
  }

  /** After clearing the rectangle, exactly its squares are empty; all others keep their pieces. */
  lemma ClearRectOccupant(fs: seq<BoardField>, a: BoardPosition, b: BoardPosition, q: BoardPosition)
    requires Layout(fs) && OnBoard(a) && OnBoard(b) && OnBoard(q)
    ensures Occupant(ClearRect(fs, a, b).value, q) == if InRect(q, a, b) then None else Occupant(fs, q)
  {
    assert PositionOfIndex(Index(q)) == q;
  }

  /** (x, y) lies on one of the two diagonals through a. */
  predicate OnDiagonalOf(x: int, y: int, a: BoardPosition)
  {
    x - a.x == y - a.y || x - a.x == a.y - y
  }

  /** q lies on a diagonal through a, within the rectangle a..b: for a and b on one diagonal, the squares from a to b. */
  predicate OnSegment(q: BoardPosition, a: BoardPosition, b: BoardPosition)
  {
    InRect(q, a, b) && OnDiagonalOf(q.x, q.y, a)
  }

  /**
   * What the documentation of `remove(from, to)` describes: the squares on the
   * diagonal between the two squares, both included, emptied; None when a
   * square is off the board.
   */
  function ClearSegment(fs: seq<BoardField>, a: BoardPosition, b: BoardPosition): (r: Option<seq<BoardField>>)
    requires Layout(fs)
    ensures r.Some? <==> OnBoard(a) && OnBoard(b)
    ensures r.Some? ==> Layout(r.value) && SameSquares(fs, r.value)
    ensures r.Some? ==> forall i :: 0 <= i < 64 ==>
      r.value[i].checker == (if OnSegment(PositionOfIndex(i), a, b) then None else fs[i].checker)
  {
    if OnBoard(a) && OnBoard(b) then
      var r := seq(64, i requires 0 <= i < 64 => if OnSegment(PositionOfIndex(i), a, b) then fs[i].(checker := None) else fs[i]);
      assert SameSquares(fs, r);
      SameSquaresLayout(fs, r);
      Some(r)
    else None
  }

  /** Emptying square p, field by field: only the field in p's column and row changes. */
  lemma PlaceNoneAt(fs: seq<BoardField>, gs: seq<BoardField>, p: BoardPosition)
    requires Layout(fs) && OnBoard(p) && Some(gs) == PlaceSpec(fs, p, None)
    ensures forall i :: 0 <= i < 64 ==> gs[i].checker == if i % 8 + 1 == p.x && i / 8 + 1 == p.y then None else fs[i].checker
  {
    forall i | 0 <= i < 64
      ensures gs[i].checker == if i % 8 + 1 == p.x && i / 8 + 1 == p.y then None else fs[i].checker
    {
      assert Index(PositionOfIndex(i)) == i;
    }
  }

  /** After clearing the diagonal, exactly its squares are empty; all others, in the rectangle or not, keep their pieces. */
  lemma ClearSegmentOccupant(fs: seq<BoardField>, a: BoardPosition, b: BoardPosition, q: BoardPosition)
    requires Layout(fs) && OnBoard(a) && OnBoard(b) && OnBoard(q)
    ensures Occupant(ClearSegment(fs, a, b).value, q) == if OnSegment(q, a, b) then None else Occupant(fs, q)
  {
    assert PositionOfIndex(Index(q)) == q;
  }

  /** The fields after the public `remove(from, to)` on square names. */
  function RemoveSpec(fs: seq<BoardField>, from: string, to: string): (r: Option<seq<BoardField>>)
    requires Layout(fs)
    ensures r.Some? ==> Layout(r.value)
  {
    match (ParsePosition(from), ParsePosition(to))
    case (Some(a), Some(b)) => ClearRect(fs, a, b)
    case _ => None
  }

  /**
   * The board object. Its field list is replaced as a whole by each operation;
   * the field objects of the source are values here.
   */
  class CheckersBoard {
    var fields: seq<BoardField>

    ghost predicate Valid()
      reads this
    {
      Layout(fields)
    }

    /** A new board: one empty field per square. */
    constructor ()
      ensures Valid() && fields == EmptyFields()
    {
      fields := EmptyFields();
    }

    /** `get(pos)`: the field at that square, None off the board. */
    function Get(p: BoardPosition): (r: Option<BoardField>)
      reads this
      requires Valid()
      ensures r.Some? <==> OnBoard(p)
      ensures r.Some? ==> r.value == fields[Index(p)] && r.value.x == p.x && r.value.y == p.y
    {
      FindOnLayout(fields, p.x, p.y);
      Find(fields, p.x, p.y)
    }

    /** `getCheckers(color)`: positions of that colour's pieces, row by row. */
    function GetCheckers(color: int): (r: seq<BoardPosition>)
      reads this
      requires Valid()
      ensures forall p :: p in r <==> OnBoard(p) && Get(p).value.checker.Some? && Get(p).value.checker.value.color == color
    {
      CheckersOf(fields, color)
    }

    /** The private `place(x, y, checker)`: promote a man reaching its far row, then store it. */
    method PlaceAt(p: BoardPosition, c: Option<BoardChecker>) returns (ok: bool)
      requires Valid()
      modifies this
      ensures Valid()
      ensures ok == OnBoard(p)
      ensures ok ==> Some(fields) == PlaceSpec(old(fields), p, c)
      ensures !ok ==> fields == old(fields)
    {
      var checker := Promoted(c, p.y);
      var field := Find(fields, p.x, p.y);
      FindOnLayout(fields, p.x, p.y);
      if field.None? {
        return false;
      }
      fields := fields[Index(p) := field.value.(checker := checker)];
      ok := true;
    }

    /** `place(pos, checker)` on a square name. */
    method Place(pos: string, c: Option<BoardChecker>) returns (ok: bool)
      requires Valid()
      modifies this
      ensures Valid()
      ensures ok == (ParsePosition(pos).Some? && OnBoard(ParsePosition(pos).value))
      ensures ok ==> Some(fields) == PlaceSpec(old(fields), ParsePosition(pos).value, c)
      ensures !ok ==> fields == old(fields)
    {
      var p := ParsePosition(pos);
      if p.None? {
        return false;
      }
      ok := PlaceAt(p.value, c);
    }

    /** `move(from, to)`: empty `from` and place its former occupant on `to`. */
    method Move(from: string, to: string) returns (ok: bool)
      requires Valid()
      modifies this
      ensures Valid()
      ensures ok == MoveSpec(old(fields), from, to).Some?
      ensures ok ==> fields == MoveSpec(old(fields), from, to).value
    {
      var f := ParsePosition(from);
      if f.None? {
        return false;
      }
      var field := Get(f.value);
      if field.None? {
        return false;
      }
      var checker := field.value.checker;
      ok := Place(from, None);
      ok := Place(to, checker);
    }

    /** The private `remove(from, to)`: empty every square of the bounding rectangle, column by column. */
    method RemoveRect(a: BoardPosition, b: BoardPosition) returns (ok: bool)
      requires Valid()
      modifies this
      ensures Valid()
      ensures ok == ClearRect(old(fields), a, b).Some?
      ensures ok ==> fields == ClearRect(old(fields), a, b).value
    {
      var x1 := if a.x <= b.x then a.x else b.x;
      var x2 := if a.x <= b.x then b.x else a.x;
      var y1 := if a.y <= b.y then a.y else b.y;
      var y2 := if a.y <= b.y then b.y else a.y;
      var x := x1;
      while x <= x2
        invariant x1 <= x <= x2 + 1
        invariant Valid() && SameSquares(old(fields), fields)
        invariant x > x1 ==> 1 <= x1 && 1 <= y1 && y2 <= 8 && x - 1 <= 8
        invariant forall i :: 0 <= i < 64 ==>
          (fields[i].checker == if x1 <= i % 8 + 1 < x && y1 <= i / 8 + 1 <= y2 then None else old(fields)[i].checker)
      {
        var y := y1;
        while y <= y2
          invariant y1 <= y <= y2 + 1
          invariant Valid() && SameSquares(old(fields), fields)
          invariant x > x1 ==> 1 <= x1 && 1 <= y1 && y2 <= 8
          invariant y > y1 ==> 1 <= x <= 8 && 1 <= y1 && y - 1 <= 8
          invariant forall i :: 0 <= i < 64 ==>
            (fields[i].checker ==
              if (x1 <= i % 8 + 1 < x && y1 <= i / 8 + 1 <= y2) || (i % 8 + 1 == x && y1 <= i / 8 + 1 < y) then None
              else old(fields)[i].checker)
        {
          ok := PlaceAt(BoardPosition(x, y), None);
          if !ok {
            return;
          }
          y := y + 1;
        }
        x := x + 1;
      }
      ok := true;
      ghost var r := ClearRect(old(fields), a, b).value;
      forall i | 0 <= i < 64
        ensures fields[i] == r[i]
      {
        assert fields[i].(checker := None) == r[i].(checker := None);
        assert InRect(PositionOfIndex(i), a, b) <==> (x1 <= i % 8 + 1 <= x2 && y1 <= i / 8 + 1 <= y2);
      }
    }

    /**
     * The private `remove(from, to)` as its documentation describes it: the
     * rectangle loop, emptying only the squares on a diagonal through `a`.
     * With `a` off the board it fails; with `b` off the board the outcome is
     * left open.
     */
    method RemoveSegment(a: BoardPosition, b: BoardPosition) returns (ok: bool)
      requires Valid()
      modifies this
      ensures Valid()
      ensures ok ==> OnBoard(a)
      ensures OnBoard(a) && OnBoard(b) ==> ok && fields == ClearSegment(old(fields), a, b).value
    {
      var x1 := if a.x <= b.x then a.x else b.x;
      var x2 := if a.x <= b.x then b.x else a.x;
      var y1 := if a.y <= b.y then a.y else b.y;
      var y2 := if a.y <= b.y then b.y else a.y;
      var x := x1;
      while x <= x2
        invariant x1 <= x <= x2 + 1
        invariant Valid() && SameSquares(old(fields), fields)
        invariant x > a.x ==> OnBoard(a)
        invariant forall i :: 0 <= i < 64 ==>
          (fields[i].checker ==
            if x1 <= i % 8 + 1 < x && y1 <= i / 8 + 1 <= y2 && OnDiagonalOf(i % 8 + 1, i / 8 + 1, a) then None
            else old(fields)[i].checker)
      {
        ok := ClearColumn(a, x, y1, y2);
        if !ok {
          return;
        }
        x := x + 1;
      }
      ok := true;
      if OnBoard(a) && OnBoard(b) {
        ghost var r := ClearSegment(old(fields), a, b).value;
        forall i | 0 <= i < 64
          ensures fields[i] == r[i]
        {
          assert fields[i].(checker := None) == r[i].(checker := None);
          assert InRect(PositionOfIndex(i), a, b) <==> (x1 <= i % 8 + 1 <= x2 && y1 <= i / 8 + 1 <= y2);
        }
      }
    }

    /** One column of RemoveSegment: rows y1..y2 of column x, emptied where they lie on a diagonal through `a`. */
    method ClearColumn(a: BoardPosition, x: int, y1: int, y2: int) returns (ok: bool)
      requires Valid() && y1 <= y2
      modifies this
      ensures Valid() && SameSquares(old(fields), fields)
      ensures 1 <= x <= 8 && 1 <= y1 && y2 <= 8 ==> ok
      ensures ok && x == a.x && y1 <= a.y <= y2 ==> OnBoard(a)
      ensures ok ==> forall i :: 0 <= i < 64 ==>
        (fields[i].checker ==
          if i % 8 + 1 == x && y1 <= i / 8 + 1 <= y2 && OnDiagonalOf(i % 8 + 1, i / 8 + 1, a) then None
          else old(fields)[i].checker)
    {
      var y := y1;
      while y <= y2
        invariant y1 <= y <= y2 + 1
        invariant Valid() && SameSquares(old(fields), fields)
        invariant x == a.x && y1 <= a.y < y ==> OnBoard(a)
        invariant forall i :: 0 <= i < 64 ==>
          (fields[i].checker ==
            if i % 8 + 1 == x && y1 <= i / 8 + 1 < y && OnDiagonalOf(i % 8 + 1, i / 8 + 1, a) then None
            else old(fields)[i].checker)
      {
        if OnDiagonalOf(x, y, a) {
          ghost var before := fields;
          ok := PlaceAt(BoardPosition(x, y), None);
          if !ok {
            return;
          }
          PlaceNoneAt(before, fields, BoardPosition(x, y));
        }
        y := y + 1;
      }
      ok := true;
    }

    /** `remove(from, to)` on square names. */
    method Remove(from: string, to: string) returns (ok: bool)
      requires Valid()
      modifies this
      ensures Valid()
      ensures ok == RemoveSpec(old(fields), from, to).Some?
      ensures ok ==> fields == RemoveSpec(old(fields), from, to).value
    {
      var a := ParsePosition(from);
      var b := ParsePosition(to);
      if a.None? || b.None? {
        return false;
      }
      ok := RemoveRect(a.value, b.value);
    }

    /** `clear()`: empty every field. */
    method Clear()
      requires Valid()
      modifies this
      ensures Valid() && fields == EmptyFields()
    {
      var i := 0;
      while i < 64
        invariant 0 <= i <= 64
        invariant Valid() && SameSquares(old(fields), fields)
        invariant forall j :: 0 <= j < 64 ==> fields[j].checker == if j < i then None else old(fields)[j].checker
      {
        fields := fields[i := fields[i].(checker := None)];
        i := i + 1;
      }
      assert forall j :: 0 <= j < 64 ==> fields[j] == EmptyFields()[j];
    }
  }
}
