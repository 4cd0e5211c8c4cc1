/**
 * Square names of the earlier engine. A position is a text such as "c3": its
 * `col` is the index of the first character among the file letters a..h (-1
 * for any other character) and its `row` is the second character's digit less
 * one, so a1 is (0, 0) and h8 is (7, 7). The four diagonal steps give None
 * when they would leave the board.
 */
module EarlyPosition {
  import opened Common

  /** The file letters, `gameConstants.letters`. */
  const Letters: string := "abcdefgh"

  /** `letters.indexOf(c)`: where c stands among the file letters, -1 when it is none of them. */
  function LetterIndex(c: char): (i: int)
    ensures -1 <= i < 8
    ensures 0 <= i ==> Letters[i] == c
    ensures i == -1 <==> c !in Letters
  {
    if 'a' <= c <= 'h' then c as int - 'a' as int else -1
  }

  /** A position: its text and the column and row the constructor derives from it. */
  datatype Position = Position(text: string, col: int, row: int)

  /**
   * `Position(strPosition)`. None where the source throws: a text shorter than
   * two characters, or a second character that is not a digit.
   */
  function NewPosition(s: string): (r: Option<Position>)
    ensures r.Some? <==> |s| >= 2 && IsDigit(s[1])
    ensures r.Some? ==> r.value.text == s && -1 <= r.value.col < 8 && -1 <= r.value.row <= 8
    ensures r.Some? && 0 <= r.value.col ==> Letters[r.value.col] == s[0]
    ensures r.Some? ==> DigitChar(r.value.row + 1) == s[1]
  {
    if |s| >= 2 && IsDigit(s[1]) then Some(Position(s, LetterIndex(s[0]), DigitValue(s[1]) - 1)) else None
  }

  /** A position as the constructor builds it: its column and row are those of its text. */
  predicate Valid(p: Position)
  {
    NewPosition(p.text) == Some(p)
  }

  /** The column and row range every constructed position has. */
  predicate InRange(p: Position)
  {
    -1 <= p.col < 8 && -1 <= p.row <= 8
  }

  /**
   * Every position the constructor builds is in range, and it lies on the
   * board exactly when its name is a file letter followed by a digit 1..8.
   */
  lemma ValidInRange(p: Position)
    requires Valid(p)
    ensures InRange(p)
    ensures OnBoardAt(p) <==> p.text[0] in Letters && '1' <= p.text[1] <= '8'
  {
  }

  predicate OnBoard(col: int, row: int)
  {
    0 <= col < 8 && 0 <= row < 8
  }

  predicate OnBoardAt(p: Position)
  {
    OnBoard(p.col, p.row)
  }

  /** `Position(col, row)`: the col-th file letter followed by the digit of row + 1. */
  function At(col: int, row: int): (p: Position)
    requires 0 <= col < 8 && -1 <= row <= 8
    ensures InRange(p) && p.col == col && p.row == row && |p.text| == 2
  {
    Position([('a' as int + col) as char, DigitChar(row + 1)], col, row)
  }

  /** At builds the position its own text names. */
  lemma AtValid(col: int, row: int)
    requires 0 <= col < 8 && -1 <= row <= 8
    ensures Valid(At(col, row))
  {
  }

  /** A square of the board named as `Position(col, row)` names it. */
  predicate Canonical(p: Position)
  {
    OnBoardAt(p) && p == At(p.col, p.row)
  }

  /** `equals`: two positions are equal when their columns and rows are. */
  predicate SamePlace(p: Position, q: Position)
  {
    p.col == q.col && p.row == q.row
  }

  /** A two-character name whose letter is a file letter is the text At gives for its column and row. */
  lemma NameOfPlace(p: Position)
    requires Valid(p) && |p.text| == 2 && 0 <= p.col
    ensures At(p.col, p.row) == p
  {
    assert p.text == [p.text[0], p.text[1]];
  }

  /** For such names, equality of the squares is equality of the texts: `toString` gives back the name. */
  lemma SamePlaceIsSameName(p: Position, q: Position)
    requires Valid(p) && |p.text| == 2 && 0 <= p.col
    requires Valid(q) && |q.text| == 2 && 0 <= q.col
    ensures SamePlace(p, q) <==> p == q
  {
    NameOfPlace(p);
    NameOfPlace(q);
  }

  // ---------------------------------------------------------------------------
  // Diagonal steps

  /** The four directions, `gameConstants.directions`, in the order NW, NE, SW, SE. */
  datatype Direction = NW | NE | SW | SE

  const Directions: seq<Direction> := [NW, NE, SW, SE]

  /** The column change of a step: west is towards a. */
  function DCol(d: Direction): int { if d == NW || d == SW then -1 else 1 }

  /** The row change of a step: north is towards rank 8. */
  function DRow(d: Direction): int { if d == NW || d == NE then 1 else -1 }

  /** `leftAndUp`. */
  function LeftAndUp(p: Position): (r: Option<Position>)
    requires InRange(p)
    ensures r.Some? <==> OnBoard(p.col - 1, p.row + 1)
    ensures r.Some? ==> r.value == At(p.col - 1, p.row + 1)
  {
    if p.col - 1 < 0 || p.row + 1 > 7 then None else Some(At(p.col - 1, p.row + 1))
  }

  /** `rightAndUp`. */
  function RightAndUp(p: Position): (r: Option<Position>)
    requires InRange(p)
    ensures r.Some? <==> OnBoard(p.col + 1, p.row + 1)
    ensures r.Some? ==> r.value == At(p.col + 1, p.row + 1)
  {
    if p.col + 1 > 7 || p.row + 1 > 7 then None else Some(At(p.col + 1, p.row + 1))
  }

  /** `leftAndDown`. */
  function LeftAndDown(p: Position): (r: Option<Position>)
    requires InRange(p)
    ensures r.Some? <==> OnBoard(p.col - 1, p.row - 1)
    ensures r.Some? ==> r.value == At(p.col - 1, p.row - 1)
  {
    if p.col - 1 < 0 || p.row - 1 < 0 then None else Some(At(p.col - 1, p.row - 1))
  }

  /** `rightAndDown`. */
  function RightAndDown(p: Position): (r: Option<Position>)
    requires InRange(p)
    ensures r.Some? <==> OnBoard(p.col + 1, p.row - 1)
    ensures r.Some? ==> r.value == At(p.col + 1, p.row - 1)
  {
    if p.col + 1 > 7 || p.row - 1 < 0 then None else Some(At(p.col + 1, p.row - 1))
  }

  /**
   * `moveByDirection`: one step in the direction, None exactly when the
   * neighbour is off the board.
   */
  function MoveByDirection(p: Position, d: Direction): (r: Option<Position>)
    requires InRange(p)
    ensures r.Some? <==> OnBoard(p.col + DCol(d), p.row + DRow(d))
    ensures r.Some? ==> r.value == At(p.col + DCol(d), p.row + DRow(d))
  {
    match d
    case NW => LeftAndUp(p)
    case NE => RightAndUp(p)
    case SW => LeftAndDown(p)
    case SE => RightAndDown(p)
  }

  /** The column k steps from col in direction d. */
  function ColAfter(col: int, d: Direction, k: int): int
  {
    if DCol(d) == 1 then col + k else col - k
  }

  /** The row k steps from row in direction d. */
  function RowAfter(row: int, d: Direction, k: int): int
  {
    if DRow(d) == 1 then row + k else row - k
  }

  /** How many steps a position may take in direction d before its row leaves -1..8. */
  function Reach(p: Position, d: Direction): nat
    requires InRange(p)
  {
    if DRow(d) == 1 then 8 - p.row else p.row + 1
  }

  /**
   * The squares from p to the edge in direction d, nearest first, as the loop
   * of `getDiagonals` collects them.
   */
  function Ray(p: Position, d: Direction): (ray: seq<Position>)
    requires InRange(p)
    ensures forall i :: 0 <= i < |ray| ==> OnBoardAt(ray[i])
    decreases Reach(p, d)
  {
    match MoveByDirection(p, d)
    case None => []
    case Some(q) => [q] + Ray(q, d)
  }

  /** q is the square k + 1 steps from p in direction d. */
  predicate StepsAway(p: Position, d: Direction, k: int, q: Position)
  {
    OnBoard(ColAfter(p.col, d, k + 1), RowAfter(p.row, d, k + 1)) &&
    q == At(ColAfter(p.col, d, k + 1), RowAfter(p.row, d, k + 1))
  }

  /** The k-th square of a ray is k + 1 steps from its start. */
  lemma {:induction false} RaySquare(p: Position, d: Direction, k: int)
    requires InRange(p) && 0 <= k < |Ray(p, d)|
    ensures StepsAway(p, d, k, Ray(p, d)[k])
    decreases Reach(p, d)
  {
    var q := MoveByDirection(p, d).value;
    assert ColAfter(p.col, d, 1) == q.col && RowAfter(p.row, d, 1) == q.row;
    if k > 0 {
      assert Ray(p, d)[k] == Ray(q, d)[k - 1];
      RaySquare(q, d, k - 1);
      StepShift(p, d, q, k - 1);
    }
  }

  /** Every square of a ray is named as `Position(col, row)` names it. */
  lemma RayCanonical(p: Position, d: Direction, k: int)
    requires InRange(p) && 0 <= k < |Ray(p, d)|
    ensures Canonical(Ray(p, d)[k])
  {
    RaySquare(p, d, k);
  }

  /** One step past the last square of a ray would leave the board. */
  lemma {:induction false} RayEnd(p: Position, d: Direction)
    requires InRange(p)
    ensures !OnBoard(ColAfter(p.col, d, |Ray(p, d)| + 1), RowAfter(p.row, d, |Ray(p, d)| + 1))
    decreases Reach(p, d)
  {
    var next := MoveByDirection(p, d);
    assert ColAfter(p.col, d, 1) == p.col + DCol(d) && RowAfter(p.row, d, 1) == p.row + DRow(d);
    if next.Some? {
      var q := next.value;
      RayEnd(q, d);
      StepShift(p, d, q, |Ray(q, d)|);
    }
  }

  /** Every square of a ray, by its place on the ray. */
  lemma RaySquares(p: Position, d: Direction)
    requires InRange(p)
    ensures forall k :: 0 <= k < |Ray(p, d)| ==> StepsAway(p, d, k, Ray(p, d)[k])
  {
    forall k | 0 <= k < |Ray(p, d)|
      ensures StepsAway(p, d, k, Ray(p, d)[k])
    {
      RaySquare(p, d, k);
    }
  }

  /** The step after the k-th square of a ray is the next square of the ray, or off the board at its end. */
  lemma {:induction false} RayNext(p: Position, d: Direction, k: int)
    requires InRange(p) && 0 <= k < |Ray(p, d)|
    ensures MoveByDirection(Ray(p, d)[k], d) == if k + 1 < |Ray(p, d)| then Some(Ray(p, d)[k + 1]) else None
    decreases Reach(p, d)
  {
    var q := MoveByDirection(p, d).value;
    if k > 0 {
      RayNext(q, d, k - 1);
    }
  }

  /** A square k + 1 steps beyond p's neighbour q is k + 2 steps beyond p. */
  lemma StepShift(p: Position, d: Direction, q: Position, k: int)
    requires q.col == p.col + DCol(d) && q.row == p.row + DRow(d)
    ensures ColAfter(q.col, d, k + 1) == ColAfter(p.col, d, k + 2)
    ensures RowAfter(q.row, d, k + 1) == RowAfter(p.row, d, k + 2)
  {
  }

  /** The squares of a ray are pairwise different squares. */
  lemma RayDistinct(p: Position, d: Direction, i: int, j: int)
    requires InRange(p) && 0 <= i < j < |Ray(p, d)|
    ensures !SamePlace(Ray(p, d)[i], Ray(p, d)[j])
  {
    RaySquares(p, d);
  }
}
