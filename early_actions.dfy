/**
 * Captures of the earlier engine (`object actions`). A command names two
 * squares, "from:to". A man jumps to `to` and the square halfway between is
 * emptied; a queen moves to `to` and the first occupied square met walking
 * from `from` towards `to` is emptied. The operations change a board in
 * place; their results as values are given first and the methods are proved
 * to produce them.
 */
module EarlyActions {
  import opened Common
  import opened EarlyPosition
  import opened EarlyBoard

  /** What a capture gives: the fields afterwards and the capturing checker. */
  datatype Outcome = Outcome(cells: Cells, killer: Checker)

  /** The command text "from:to" the move search writes. */
  function CommandText(p: Position, q: Position): string
  {
    p.text + ":" + q.text
  }

  /**
   * `parse(command)`: the squares named by the first two `:`-separated
   * fields. None where the source throws: fewer than two fields, or a field
   * that is not a square name.
   */
  function ParseCommand(command: string): (r: Option<(Position, Position)>)
    ensures r.Some? ==> EarlyPosition.Valid(r.value.0) && EarlyPosition.Valid(r.value.1)
    ensures r.Some? ==> ':' !in r.value.0.text && ':' !in r.value.1.text
    ensures |Split(command, ':')| < 2 ==> r.None?
  {
    var fields := Split(command, ':');
    if |fields| < 2 then None
    else
      match (NewPosition(fields[0]), NewPosition(fields[1]))
      case (Some(p), Some(q)) => Some((p, q))
      case _ => None
  }

  /** Parsing the command text of two square names gives the two squares back. */
  lemma ParseCommandText(p: Position, q: Position)
    requires EarlyPosition.Valid(p) && EarlyPosition.Valid(q)
    requires ':' !in p.text && ':' !in q.text
    ensures ParseCommand(CommandText(p, q)) == Some((p, q))
  {
    assert CommandText(p, q) == p.text + [':'] + q.text;
    SplitAppend(p.text, q.text, ':');
    SplitNoSeparator(p.text, ':');
  }

  /** Square names built from a column and a row hold no separator. */
  lemma AtHasNoColon(col: int, row: int)
    requires 0 <= col < 8 && -1 <= row <= 8
    ensures ':' !in At(col, row).text
  {
  }

  // ---------------------------------------------------------------------------
  // Promotion

  /**
   * `testQueen(checker)` for a checker standing on `row`: a man becomes a
   * queen on the far rank of its colour (row 7 for white, row 0 for black);
   * a queen stays one.
   */
  function TestQueen(c: Checker, row: int): (r: Checker)
    ensures r.color == c.color && r.id == c.id
    ensures r.queen <==> c.queen || row == 7 - 7 * c.color
  {
    if !c.queen && row == 7 - 7 * c.color then c.(queen := true) else c
  }

  // ---------------------------------------------------------------------------
  // The man's capture

  /** `Position((from.col + to.col) / 2, (from.row + to.row) / 2)`: the square halfway between. */
  function Midpoint(from: Position, to: Position): (m: Position)
    requires OnBoardAt(from) && OnBoardAt(to)
    ensures OnBoardAt(m) && EarlyPosition.Valid(m) && |m.text| == 2
  {
    AtValid((from.col + to.col) / 2, (from.row + to.row) / 2);
    At((from.col + to.col) / 2, (from.row + to.row) / 2)
  }

  /**
   * `killByChecker(board, from, to)` as a value: the checker moves to `to`,
   * is promoted there if it reached its far rank, and the square halfway
   * between is emptied. None where `move` throws.
   */
  function KillByCheckerSpec(cs: Cells, from: Position, to: Position): (r: Option<Outcome>)
    requires |cs| == 64
    ensures r.Some? <==> OnBoardAt(from) && OnBoardAt(to) && cs[Index(from)].Some?
    ensures r.Some? ==> |r.value.cells| == 64 && r.value.killer == TestQueen(cs[Index(from)].value, to.row)
  {
    if !OnBoardAt(from) || !OnBoardAt(to) || cs[Index(from)].None? then None
    else
      var killer := TestQueen(cs[Index(from)].value, to.row);
      var moved := Moved(cs, Index(from), Index(to))[Index(to) := Some(killer)];
      Some(Outcome(Placed(moved, None, Index(Midpoint(from, to))), killer))
  }

  /**
   * A man's capture changes only `from`, `to` and the square halfway: `from`
   * is emptied, `to` holds the (possibly promoted) checker and the dark
   * square halfway is emptied.
   */
  lemma KillByCheckerEffect(cs: Cells, from: Position, to: Position)
    requires |cs| == 64 && KillByCheckerSpec(cs, from, to).Some?
    ensures var r := KillByCheckerSpec(cs, from, to).value.cells;
            var i, j, m := Index(from), Index(to), Index(Midpoint(from, to));
            (forall k :: 0 <= k < 64 && k != i && k != j && k != m ==> r[k] == cs[k]) &&
            (i != j ==> r[i].None?) &&
            (m != j ==> r[j] == Some(KillByCheckerSpec(cs, from, to).value.killer)) &&
            (Dark(Midpoint(from, to)) ==> r[m].None?)
  {
    DarkField(Midpoint(from, to));
  }

  // ---------------------------------------------------------------------------
  // The queen's capture

  /** The direction `killByQueen` walks: south when `to` has a lower row, west when it has a lower column. */
  function DirOf(from: Position, to: Position): Direction
  {
    if from.row > to.row then (if from.col > to.col then SW else SE)
    else (if from.col > to.col then NW else NE)
  }

  /** Walking from a square towards any square of one of its rays goes in that ray's direction. */
  lemma DirOfRay(p: Position, d: Direction, k: int)
    requires InRange(p) && 0 <= k < |Ray(p, d)|
    ensures DirOf(p, Ray(p, d)[k]) == d
  {
    RaySquare(p, d, k);
  }

  /**
   * The `do { place = place.moveByDirection(dir)!! } while (getField(place).checker == null)`
   * walk: the first occupied square after p in direction d; None where the
   * walk steps off the board and the source throws.
   */
  function Walk(cs: Cells, p: Position, d: Direction): (r: Option<Position>)
    requires |cs| == 64 && InRange(p)
    ensures r.Some? ==> OnBoardAt(r.value) && cs[Index(r.value)].Some? && EarlyPosition.Valid(r.value)
    decreases Reach(p, d)
  {
    match MoveByDirection(p, d)
    case None => None
    case Some(q) =>
      AtValid(q.col, q.row);
      if cs[Index(q)].Some? then Some(q) else Walk(cs, q, d)
  }

  /** All squares of a list are on the board. */
  predicate AllOnBoard(ray: seq<Position>)
  {
    forall i :: 0 <= i < |ray| ==> OnBoardAt(ray[i])
  }

  /** The place of the first occupied square of a list of squares, -1 when all are empty. */
  function FirstOccupied(cs: Cells, ray: seq<Position>): (i: int)
    requires |cs| == 64 && AllOnBoard(ray)
    ensures -1 <= i < |ray|
    ensures 0 <= i ==> cs[Index(ray[i])].Some?
    ensures forall j :: 0 <= j < |ray| && (i < 0 || j < i) ==> cs[Index(ray[j])].None?
  {
    if ray == [] then -1
    else if cs[Index(ray[0])].Some? then 0
    else
      var i := FirstOccupied(cs, ray[1..]);
      if i < 0 then -1 else i + 1
  }

  /** The walk stops at the first occupied square of the ray, and fails when the ray is empty of pieces. */
  lemma {:induction false} WalkFindsFirst(cs: Cells, p: Position, d: Direction)
    requires |cs| == 64 && InRange(p)
    ensures var i := FirstOccupied(cs, Ray(p, d));
            Walk(cs, p, d) == if i < 0 then None else Some(Ray(p, d)[i])
    decreases Reach(p, d)
  {
    match MoveByDirection(p, d)
    case None =>
    case Some(q) =>
      var ray := Ray(p, d);
      assert ray == [q] + Ray(q, d);
      assert ray[1..] == Ray(q, d);
      if cs[Index(q)].None? {
        WalkFindsFirst(cs, q, d);
      }
  }

  /**
   * `killByQueen(board, from, to)` as a value: the checker moves to `to` and
   * becomes a queen, then the first occupied square met walking from `from`
   * towards `to` is emptied. None where `move` throws or the walk leaves
   * the board.
   */
  function KillByQueenSpec(cs: Cells, from: Position, to: Position): (r: Option<Outcome>)
    requires |cs| == 64 && InRange(from)
    ensures r.Some? ==> OnBoardAt(from) && OnBoardAt(to) && cs[Index(from)].Some?
    ensures r.Some? ==> |r.value.cells| == 64 && r.value.killer == cs[Index(from)].value.(queen := true)
  {
    if !OnBoardAt(from) || !OnBoardAt(to) || cs[Index(from)].None? then None
    else
      var killer := cs[Index(from)].value.(queen := true);
      var moved := Moved(cs, Index(from), Index(to))[Index(to) := Some(killer)];
      match Walk(moved, from, DirOf(from, to))
      case None => None
      case Some(v) => Some(Outcome(Placed(moved, None, Index(v)), killer))
  }

  /** The fields after the queen moved from `from` to `to`, before anything is removed. */
  function QueenMoved(cs: Cells, from: Position, to: Position): (r: Cells)
    requires |cs| == 64 && OnBoardAt(from) && OnBoardAt(to) && cs[Index(from)].Some?
    ensures |r| == 64
  {
    Moved(cs, Index(from), Index(to))[Index(to) := Some(cs[Index(from)].value.(queen := true))]
  }

  /**
   * A queen's capture changes only `from`, `to` and the square the walk
   * stops at: the first occupied square after `from` towards `to` once the
   * queen has moved. `from` is emptied, `to` holds the queen and that square
   * is emptied if it is dark.
   */
  lemma KillByQueenEffect(cs: Cells, from: Position, to: Position)
    requires |cs| == 64 && InRange(from) && KillByQueenSpec(cs, from, to).Some?
    ensures var moved := QueenMoved(cs, from, to);
            var ray := Ray(from, DirOf(from, to));
            var v := FirstOccupied(moved, ray);
            var r := KillByQueenSpec(cs, from, to).value.cells;
            var i, j := Index(from), Index(to);
            0 <= v && Walk(moved, from, DirOf(from, to)) == Some(ray[v]) &&
            (forall k :: 0 <= k < 64 && k != i && k != j && k != Index(ray[v]) ==> r[k] == cs[k]) &&
            (i != j ==> r[i].None?) &&
            (Index(ray[v]) != j ==> r[j] == Some(KillByQueenSpec(cs, from, to).value.killer)) &&
            (Dark(ray[v]) ==> r[Index(ray[v])].None?)
  {
    var moved := QueenMoved(cs, from, to);
    var d := DirOf(from, to);
    WalkFindsFirst(moved, from, d);
    var v := FirstOccupied(moved, Ray(from, d));
    DarkField(Ray(from, d)[v]);
  }

  // ---------------------------------------------------------------------------
  // Dispatch

  /**
   * `kill(board, command)` as a value: parse the command, then capture as a
   * queen if the piece on `from` is one, else as a man. None where the
   * source throws: a malformed command, or nobody on `from`.
   */
  function KillSpec(cs: Cells, command: string): (r: Option<Outcome>)
    requires |cs| == 64
  {
    match ParseCommand(command)
    case None => None
    case Some((from, to)) =>
      ValidInRange(from);
      if !OnBoardAt(from) || cs[Index(from)].None? then None
      else if cs[Index(from)].value.queen then KillByQueenSpec(cs, from, to)
      else KillByCheckerSpec(cs, from, to)
  }

  /**
   * `killByQueen(board, command)` as a value: the squares the command names,
   * then the queen's capture between them. None where the source throws.
   */
  function KillByQueenCommandSpec(cs: Cells, command: string): (r: Option<Outcome>)
    requires |cs| == 64
    ensures ParseCommand(command).None? ==> r.None?
    ensures r.Some? ==> r.value.killer.queen
  {
    match ParseCommand(command)
    case None => None
    case Some((from, to)) =>
      ValidInRange(from);
      KillByQueenSpec(cs, from, to)
  }

  /** The command text of two squares is carried out as the queen's capture between them. */
  lemma KillByQueenOfCommand(cs: Cells, from: Position, to: Position)
    requires |cs| == 64 && EarlyPosition.Valid(from) && EarlyPosition.Valid(to)
    requires ':' !in from.text && ':' !in to.text
    ensures InRange(from)
    ensures KillByQueenCommandSpec(cs, CommandText(from, to)) == KillByQueenSpec(cs, from, to)
  {
    ParseCommandText(from, to);
    ValidInRange(from);
  }

  /** The command text of two squares is carried out as a queen capture exactly when a queen stands on the first. */
  lemma KillOfCommand(cs: Cells, from: Position, to: Position)
    requires |cs| == 64 && EarlyPosition.Valid(from) && EarlyPosition.Valid(to)
    requires ':' !in from.text && ':' !in to.text
    requires OnBoardAt(from) && cs[Index(from)].Some?
    ensures InRange(from)
    ensures KillSpec(cs, CommandText(from, to)) ==
            if cs[Index(from)].value.queen then KillByQueenSpec(cs, from, to) else KillByCheckerSpec(cs, from, to)
  {
    ParseCommandText(from, to);
  }

  /** On a cloned board no piece is a queen, so every command is carried out as a man's capture. */
  lemma KillOnClone(cs: Cells, from: Position, to: Position)
    requires |cs| == 64 && EarlyPosition.Valid(from) && EarlyPosition.Valid(to)
    requires ':' !in from.text && ':' !in to.text
    ensures KillSpec(Cloned(cs), CommandText(from, to)) == KillByCheckerSpec(Cloned(cs), from, to)
  {
    ParseCommandText(from, to);
  }

  // ---------------------------------------------------------------------------
  // The operations on a board

  /**
   * `killByChecker(board, from, to)`. `ok` is false where the source throws;
   * the board is then left as `move` left it, unchanged.
   */
  method KillByChecker(board: Checkerboard, from: Position, to: Position) returns (ok: bool, killer: Checker)
    requires board.Valid() && EarlyPosition.Valid(from) && EarlyPosition.Valid(to)
    modifies board
    ensures board.Valid()
    ensures ok <==> KillByCheckerSpec(old(board.cells), from, to).Some?
    ensures ok ==> Outcome(board.cells, killer) == KillByCheckerSpec(old(board.cells), from, to).value
  {
    ok, killer := board.Move(from.text, to.text);
    if !ok {
      return;
    }
    killer := TestQueen(killer, to.row);
    board.cells := board.cells[Index(to) := Some(killer)];
    var removed := board.Remove(Midpoint(from, to));
  }

  /**
   * `killByQueen(board, from, to)`, with its do-while walk. `ok` is false
   * where the source throws; the state is then unspecified, as the source
   * may throw after it has moved the piece.
   */
  method KillByQueen(board: Checkerboard, from: Position, to: Position) returns (ok: bool, killer: Checker)
    requires board.Valid() && EarlyPosition.Valid(from) && EarlyPosition.Valid(to)
    modifies board
    ensures board.Valid()
    ensures InRange(from)
    ensures ok <==> KillByQueenSpec(old(board.cells), from, to).Some?
    ensures ok ==> Outcome(board.cells, killer) == KillByQueenSpec(old(board.cells), from, to).value
  {
    ValidInRange(from);
    ok, killer := board.Move(from.text, to.text);
    if !ok {
      return;
    }
    killer := killer.(queen := true);
    board.cells := board.cells[Index(to) := Some(killer)];
    var dir := DirOf(from, to);
    var place := from;
    var next := MoveByDirection(place, dir);
    while next.Some? && board.cells[Index(next.value)].None?
      invariant board.Valid() && InRange(place)
      invariant next == MoveByDirection(place, dir)
      invariant Walk(board.cells, place, dir) == Walk(board.cells, from, dir)
      decreases Reach(place, dir)
    {
      place := next.value;
      next := MoveByDirection(place, dir);
    }
    if next.None? {
      ok := false;
      return;
    }
    place := next.value;
    AtValid(place.col, place.row);
    var removed := board.Remove(place);
  }

  /** `killByQueen(board, command)`. `ok` is false where the source throws. */
  method KillByQueenCommand(board: Checkerboard, command: string) returns (ok: bool, killer: Checker)
    requires board.Valid()
    modifies board
    ensures board.Valid()
    ensures ok <==> KillByQueenCommandSpec(old(board.cells), command).Some?
    ensures ok ==> Outcome(board.cells, killer) == KillByQueenCommandSpec(old(board.cells), command).value
  {
    var parsed := ParseCommand(command);
    if parsed.None? {
      return false, Checker(0, false, 0);
    }
    var (from, to) := parsed.value;
    ok, killer := KillByQueen(board, from, to);
  }

  /**
   * `kill(board, command)`. `ok` is false where the source throws: a
   * malformed command, nobody on `from`, or a failure inside the capture.
   */
  method Kill(board: Checkerboard, command: string) returns (ok: bool, killer: Checker)
    requires board.Valid()
    modifies board
    ensures board.Valid()
    ensures ok <==> KillSpec(old(board.cells), command).Some?
    ensures ok ==> Outcome(board.cells, killer) == KillSpec(old(board.cells), command).value
  {
    var parsed := ParseCommand(command);
    if parsed.None? {
      return false, Checker(0, false, 0);
    }
    var (from, to) := parsed.value;
    ValidInRange(from);
    var field := board.GetField(from);
    if field.None? || field.value.checker.None? {
      return false, Checker(0, false, 0);
    }
    if field.value.checker.value.queen {
      ok, killer := KillByQueen(board, from, to);
    } else {
      ok, killer := KillByChecker(board, from, to);
    }
  }
}
