/**
 * The earlier engine's move generator, `StepSearcher`, as the class the source
 * has: it holds the board and the side to move, and gathers the capture
 * chains it finds in its `commandChains` list. Each method is proved to
 * compute what the functions of EarlySteps define.
 */
module EarlySearcher {
  import opened Common
  import opened EarlyPosition
  import opened EarlyBoard
  import opened EarlyActions
  import opened EarlySteps

  /** The command texts of each chain, in order: what `commandChains` holds for them. */
  function ChainCommands(chains: seq<seq<Capture>>): (r: seq<seq<string>>)
    ensures |r| == |chains|
    ensures forall i :: 0 <= i < |chains| ==> r[i] == Commands(chains[i])
  {
    seq(|chains|, i requires 0 <= i < |chains| => Commands(chains[i]))
  }

  /** Commands of two lists of captures, one after the other. */
  lemma CommandsAppend(a: seq<Capture>, b: seq<Capture>)
    ensures Commands(a + b) == Commands(a) + Commands(b)
  {
    assert forall i :: 0 <= i < |a| ==> (a + b)[i] == a[i];
    assert forall i :: |a| <= i < |a| + |b| ==> (a + b)[i] == b[i - |a|];
  }

  /** The command lists of two lists of chains, one after the other. */
  lemma ChainCommandsAppend(a: seq<seq<Capture>>, b: seq<seq<Capture>>)
    ensures ChainCommands(a + b) == ChainCommands(a) + ChainCommands(b)
  {
    assert forall i :: 0 <= i < |a| ==> (a + b)[i] == a[i];
    assert forall i :: |a| <= i < |a| + |b| ==> (a + b)[i] == b[i - |a|];
  }

  /**
   * The captures a queen on p is offered along the given diagonals, each
   * taken in the direction of its first square.
   */
  ghost function RowsJumps(cs: Cells, color: int, p: Position, rows: seq<seq<Position>>): (r: seq<Capture>)
    requires Ready(cs, p) && forall i :: 0 <= i < |rows| ==> rows[i] != []
  {
    if rows == [] then []
    else RowsJumps(cs, color, p, rows[..|rows| - 1]) + QueenDir(cs, color, p, DirOf(p, rows[|rows| - 1][0]))
  }

  /** Going over the non-empty diagonals finds what going over the directions finds. */
  lemma {:induction false} QueenDirsRows(cs: Cells, color: int, p: Position, n: nat)
    requires Ready(cs, p) && n <= 4
    ensures QueenDirs(cs, color, p, n) == RowsJumps(cs, color, p, DiagonalsIn(p, Directions[..n]))
  {
    if n > 0 {
      QueenDirsRows(cs, color, p, n - 1);
      var d := Directions[n - 1];
      var prev := DiagonalsIn(p, Directions[..n - 1]);
      DiagonalsInLast(p, n);
      assert QueenDirs(cs, color, p, n) == QueenDirs(cs, color, p, n - 1) + QueenDir(cs, color, p, d);
      if Ray(p, d) != [] {
        DirOfRay(p, d, 0);
        assert DirOf(p, Ray(p, d)[0]) == d;
        RowsJumpsGrow(cs, color, p, prev, Ray(p, d));
      } else {
        assert QueenDir(cs, color, p, d) == [];
        assert DiagonalsIn(p, Directions[..n]) == prev + [] == prev;
      }
    }
  }

  lemma DiagonalsInLast(p: Position, n: nat)
    requires InRange(p) && 0 < n <= 4
    ensures DiagonalsIn(p, Directions[..n]) ==
            DiagonalsIn(p, Directions[..n - 1]) + (if Ray(p, Directions[n - 1]) != [] then [Ray(p, Directions[n - 1])] else [])
  {
    assert Directions[..n][..n - 1] == Directions[..n - 1];
  }

  lemma RowsJumpsGrow(cs: Cells, color: int, p: Position, rows: seq<seq<Position>>, row: seq<Position>)
    requires Ready(cs, p) && (forall i :: 0 <= i < |rows| ==> rows[i] != []) && row != []
    ensures RowsJumps(cs, color, p, rows + [row]) == RowsJumps(cs, color, p, rows) + QueenDir(cs, color, p, DirOf(p, row[0]))
  {
    assert (rows + [row])[..|rows|] == rows;
  }

  /** One step along a ray: the rest of the ray starts one square further on. */
  lemma WalkOn(p: Position, d: Direction, before: seq<Position>)
    requires InRange(p) && MoveByDirection(p, d).Some?
    ensures InRange(MoveByDirection(p, d).value) && Reach(MoveByDirection(p, d).value, d) < Reach(p, d)
    ensures before + Ray(p, d) == (before + [MoveByDirection(p, d).value]) + Ray(MoveByDirection(p, d).value, d)
  {
    var q := MoveByDirection(p, d).value;
    assert Ray(p, d) == [q] + Ray(q, d);
  }

  /** Each diagonal `getDiagonals` lists is the ray in the direction of its first square. */
  lemma DiagonalIsRay(p: Position, row: seq<Position>)
    requires InRange(p) && row in Diagonals(p)
    ensures row != [] && row == Ray(p, DirOf(p, row[0]))
  {
    DiagonalsInRays(p, Directions);
    var d :| d in Directions && row == Ray(p, d);
    DirOfRay(p, d, 0);
  }

  /** `map { "$position:$it" }`: each landing name behind the name of the capturing piece's square. */
  function FromSquare(p: Position, names: seq<string>): (r: seq<string>)
    ensures |r| == |names| && forall i :: 0 <= i < |names| ==> r[i] == p.text + ":" + names[i]
  {
    seq(|names|, i requires 0 <= i < |names| => p.text + ":" + names[i])
  }

  /** names[i] is the name of the square ray[ts[i]], for every i. */
  predicate Named(names: seq<string>, ray: seq<Position>, ts: seq<int>)
  {
    |names| == |ts| && forall i :: 0 <= i < |ts| ==> 0 <= ts[i] < |ray| && names[i] == ray[ts[i]].text
  }

  /** names are the names of the squares of ray from start on, one by one. */
  predicate Run(names: seq<string>, ray: seq<Position>, start: nat)
  {
    start + |names| <= |ray| && forall i :: 0 <= i < |names| ==> names[i] == ray[start + i].text
  }

  lemma NamedGrows(names: seq<string>, ray: seq<Position>, ts: seq<int>, t: int)
    requires Named(names, ray, ts) && 0 <= t < |ray|
    ensures Named(names + [ray[t].text], ray, ts + [t])
  {
  }

  lemma RunGrows(names: seq<string>, ray: seq<Position>, start: nat)
    requires Run(names, ray, start) && start + |names| < |ray|
    ensures Run(names + [ray[start + |names|].text], ray, start)
  {
  }

  /** One more landing tried: QueenAttacks keeps it exactly when the queen can capture again from it. */
  lemma AttacksGrow(cs: Cells, color: int, p: Position, d: Direction, ray: seq<Position>, v: int, e: int, t: int, ts: seq<int>)
    requires Ready(cs, p) && Lane(cs, color, p, d, ray, v, e) && v < t < e
    requires ts + QueenAttacks(cs, color, p, d, ray, v, e, t) == QueenAttacks(cs, color, p, d, ray, v, e, v + 1)
    ensures (if Continues(cs, color, p, d, ray, v, e, t) then ts + [t] else ts) + QueenAttacks(cs, color, p, d, ray, v, e, t + 1) ==
            QueenAttacks(cs, color, p, d, ray, v, e, v + 1)
  {
    QueenAttacksStep(cs, color, p, d, ray, v, e, t);
    var rest := QueenAttacks(cs, color, p, d, ray, v, e, t + 1);
    assert ts + ([t] + rest) == (ts + [t]) + rest;
  }

  /**
   * The commands a diagonal yields: those of the attacking landings when
   * there are any, else those of all landings, are the commands of the
   * captures QueenDiagonal lists.
   */
  lemma KeptLandings(cs: Cells, color: int, p: Position, d: Direction, ray: seq<Position>, v: int, e: int,
                     attackMoves: seq<string>, moves: seq<string>)
    requires Ready(cs, p) && Lane(cs, color, p, d, ray, v, e)
    requires |moves| == e - v - 1 && Run(moves, ray, v + 1)
    requires Named(attackMoves, ray, QueenAttacks(cs, color, p, d, ray, v, e, v + 1))
    ensures FromSquare(p, if |attackMoves| > 0 then attackMoves else moves) == Commands(QueenDiagonal(cs, color, p, d, ray, v, e))
  {
    if |attackMoves| > 0 {
      QueenDiagonalAttacks(cs, color, p, d, ray, v, e);
    } else {
      QueenDiagonalQuiet(cs, color, p, d, ray, v, e);
    }
  }

  /**
   * `kill` on a clone of cs with the command of a capture c the man on p is
   * offered: it captures c, and ManAfter goes on from the board it leaves.
   */
  lemma ManAfterKill(cs: Cells, color: int, p: Position, c: Capture, done: seq<Capture>) returns (killer: Checker, next: Cells)
    requires Ready(cs, p) && c in ManJumps(cs, color, p, 4)
    ensures ParseCommand(CommandText(c.from, c.to)) == Some((c.from, c.to))
    ensures KillSpec(Cloned(cs), CommandText(c.from, c.to)) == Some(Outcome(next, killer))
    ensures Ready(next, c.to) && Count(next) < Count(cs)
    ensures killer.queen ==> Ready(Cloned(next), c.to) && Count(Cloned(next)) < Count(cs) &&
                             ManAfter(cs, color, p, c, done) == QueenFrom(Cloned(next), color, c.to, done)
    ensures !killer.queen ==> ManAfter(cs, color, p, c, done) == ManFrom(next, color, c.to, done)
  {
    ManJumpsSound(cs, color, p, 4, c);
    JumpCloned(cs, color, c);
    var cl := Cloned(cs);
    JumpSquares(cl, color, c);
    killer := TestQueen(cl[Index(c.from)].value, c.to.row);
    CaptureCount(cl, color, c, killer);
    next := CaptureCells(cl, c, killer);
    ManKill(cl, color, c);
    ParseCommandText(c.from, c.to);
    if killer.queen {
      ClonedDark(next);
    }
  }

  /**
   * `killByQueen` on a clone of cs with the command of a capture c the queen
   * on p is offered: it captures c, and QueenAfter goes on from the board it
   * leaves.
   */
  lemma QueenAfterKill(cs: Cells, color: int, p: Position, c: Capture, done: seq<Capture>) returns (killer: Checker, next: Cells)
    requires Ready(cs, p) && c in QueenJumps(cs, color, p)
    ensures ParseCommand(CommandText(c.from, c.to)) == Some((c.from, c.to))
    ensures KillByQueenCommandSpec(Cloned(cs), CommandText(c.from, c.to)) == Some(Outcome(next, killer))
    ensures Ready(next, c.to) && Count(next) < Count(cs)
    ensures QueenAfter(cs, color, p, c, done) == QueenFrom(next, color, c.to, done)
  {
    QueenJumpsSound(cs, color, p);
    JumpCloned(cs, color, c);
    var cl := Cloned(cs);
    JumpSquares(cl, color, c);
    killer := cl[Index(c.from)].value.(queen := true);
    CaptureCount(cl, color, c, killer);
    next := CaptureCells(cl, c, killer);
    QueenKill(cl, color, c);
    KillByQueenOfCommand(cl, c.from, c.to);
    ParseCommandText(c.from, c.to);
  }

  /** One more capture of the man's: its chains follow those of the captures before it. */
  lemma ManEachGrow(cs: Cells, color: int, p: Position, done: seq<Capture>, i: nat, start: seq<seq<string>>)
    requires Ready(cs, p) && i < |ManJumps(cs, color, p, 4)|
    ensures (start + ChainCommands(ManEach(cs, color, p, done, i))) +
            ChainCommands(ManAfter(cs, color, p, ManJumps(cs, color, p, 4)[i], done + [ManJumps(cs, color, p, 4)[i]])) ==
            start + ChainCommands(ManEach(cs, color, p, done, i + 1))
  {
    var c := ManJumps(cs, color, p, 4)[i];
    ChainCommandsAppend(ManEach(cs, color, p, done, i), ManAfter(cs, color, p, c, done + [c]));
  }

  /** After all its captures, the man's chains are those ManFrom records; with none, ManFrom records the chain made so far. */
  lemma ManFromEach(cs: Cells, color: int, p: Position, done: seq<Capture>)
    requires Ready(cs, p)
    ensures ManJumps(cs, color, p, 4) != [] ==> ManFrom(cs, color, p, done) == ManEach(cs, color, p, done, |ManJumps(cs, color, p, 4)|)
    ensures ManJumps(cs, color, p, 4) == [] && done == [] ==> ManFrom(cs, color, p, done) == ManEach(cs, color, p, done, 0)
    ensures ManJumps(cs, color, p, 4) == [] && done != [] ==> ManFrom(cs, color, p, done) == [done]
  {
  }

  lemma QueenEachGrow(cs: Cells, color: int, p: Position, done: seq<Capture>, i: nat, start: seq<seq<string>>)
    requires Ready(cs, p) && i < |QueenJumps(cs, color, p)|
    ensures (start + ChainCommands(QueenEach(cs, color, p, done, i))) +
            ChainCommands(QueenAfter(cs, color, p, QueenJumps(cs, color, p)[i], done + [QueenJumps(cs, color, p)[i]])) ==
            start + ChainCommands(QueenEach(cs, color, p, done, i + 1))
  {
    var c := QueenJumps(cs, color, p)[i];
    ChainCommandsAppend(QueenEach(cs, color, p, done, i), QueenAfter(cs, color, p, c, done + [c]));
  }

  lemma QueenFromEach(cs: Cells, color: int, p: Position, done: seq<Capture>)
    requires Ready(cs, p)
    ensures QueenJumps(cs, color, p) != [] ==> QueenFrom(cs, color, p, done) == QueenEach(cs, color, p, done, |QueenJumps(cs, color, p)|)
    ensures QueenJumps(cs, color, p) == [] && done == [] ==> QueenFrom(cs, color, p, done) == QueenEach(cs, color, p, done, 0)
    ensures QueenJumps(cs, color, p) == [] && done != [] ==> QueenFrom(cs, color, p, done) == [done]
  {
  }

  /** The commands of a chain one capture longer. */
  lemma CommandsGrow(done: seq<Capture>, c: Capture)
    ensures Commands(done + [c]) == Commands(done) + [CommandText(c.from, c.to)]
  {
    CommandsAppend(done, [c]);
  }

  /** One more listed piece: what `calculateForCheckers` has gathered grows by that piece's chains. */
  lemma MenChainsGrow(cs: Cells, color: int, pieces: seq<Piece>, i: nat, start: seq<seq<string>>)
    requires i < |pieces|
    ensures (start + ChainCommands(MenChains(cs, color, pieces[..i]))) + ChainCommands(ManShare(cs, color, pieces[i])) ==
            start + ChainCommands(MenChains(cs, color, pieces[..i + 1]))
  {
    var shares := MenShares(cs, color, pieces[..i + 1]);
    assert pieces[..i + 1][..i] == pieces[..i];
    assert shares[..i] == MenShares(cs, color, pieces[..i]);
    ChainCommandsAppend(MenChains(cs, color, pieces[..i]), ManShare(cs, color, pieces[i]));
  }

  /** One more listed piece: what `calculateForQueens` has gathered grows by that piece's chains. */
  lemma QueensChainsGrow(cs: Cells, color: int, pieces: seq<Piece>, i: nat, start: seq<seq<string>>)
    requires i < |pieces|
    ensures (start + ChainCommands(QueensChains(cs, color, pieces[..i]))) + ChainCommands(QueenShare(cs, color, pieces[i])) ==
            start + ChainCommands(QueensChains(cs, color, pieces[..i + 1]))
  {
    var shares := QueensShares(cs, color, pieces[..i + 1]);
    assert pieces[..i + 1][..i] == pieces[..i];
    assert shares[..i] == QueensShares(cs, color, pieces[..i]);
    ChainCommandsAppend(QueensChains(cs, color, pieces[..i]), QueenShare(cs, color, pieces[i]));
  }

  /** The commands of a chain `getAvailableKillSteps` can reduce: at least one, each after the first at least five characters long. */
  predicate Reducible(commands: seq<string>)
  {
    |commands| >= 1 && forall i :: 0 < i < |commands| ==> |commands[i]| >= 5
  }

  /** The `commandChains.map { … reduce … }` of `getAvailableKillSteps`: the text of each command list. */
  function Reduced(chains: seq<seq<string>>): (r: seq<string>)
    requires forall i :: 0 <= i < |chains| ==> Reducible(chains[i])
    ensures |r| == |chains|
    ensures forall i :: 0 <= i < |chains| ==> Reducible(chains[i]) && r[i] == ChainText(chains[i])
  {
    seq(|chains|, i requires 0 <= i < |chains| => assert Reducible(chains[i]); ChainText(chains[i]))
  }

  /** The command list of the i-th kill chain can be reduced, and reducing it gives the i-th kill step. */
  lemma KillStepReduced(cs: Cells, color: int, i: nat)
    requires AllDark(cs) && i < |KillChains(cs, color)|
    ensures Reducible(Commands(KillChains(cs, color)[i]))
    ensures KillSteps(cs, color)[i] == ChainText(Commands(KillChains(cs, color)[i]))
  {
    var chains := KillChains(cs, color);
    KillChainsPaths(cs, color);
    assert chains[i] in chains;
    ChainTextVisited(cs, color, chains[i]);
  }

  /** The command lists gathered for the men and then for the queens are those of the kill chains. */
  lemma KillCommands(cs: Cells, color: int, chains: seq<seq<string>>)
    requires AllDark(cs)
    requires chains == ([] + ChainCommands(MenChains(cs, color, CheckersFrom(cs, color, 0)))) +
                       ChainCommands(QueensChains(cs, color, CheckersFrom(cs, color, 0)))
    ensures chains == ChainCommands(KillChains(cs, color))
  {
    var pieces := CheckersFrom(cs, color, 0);
    var men, queens := MenChains(cs, color, pieces), QueensChains(cs, color, pieces);
    assert [] + ChainCommands(men) == ChainCommands(men);
    ChainCommandsAppend(men, queens);
  }

  /** The command lists of the kill chains can all be reduced, and reducing them gives the kill steps. */
  lemma KillStepsReduced(cs: Cells, color: int)
    requires AllDark(cs)
    ensures forall i :: 0 <= i < |KillChains(cs, color)| ==> Reducible(ChainCommands(KillChains(cs, color))[i])
    ensures Reduced(ChainCommands(KillChains(cs, color))) == KillSteps(cs, color)
  {
    var chains := ChainCommands(KillChains(cs, color));
    var steps := KillSteps(cs, color);
    forall i | 0 <= i < |chains|
      ensures Reducible(chains[i]) && steps[i] == ChainText(chains[i])
    {
      KillStepReduced(cs, color, i);
    }
    assert Reduced(chains) == steps;
  }

  class StepSearcher {
    const checkerboard: Checkerboard
    const color: int
    /** The chains found so far, each as its list of commands. */
    var commandChains: seq<seq<string>>

    constructor (checkerboard: Checkerboard, color: int)
      ensures this.checkerboard == checkerboard && this.color == color && commandChains == []
    {
      this.checkerboard := checkerboard;
      this.color := color;
      commandChains := [];
    }

    /** `getDiagonals(place)`: in each direction, the squares to the edge, nearest first; the empty ones dropped. */
    method GetDiagonals(place: Position) returns (rows: seq<seq<Position>>)
      requires InRange(place)
      ensures rows == Diagonals(place)
    {
      rows := [];
      for i := 0 to 4
        invariant rows == DiagonalsIn(place, Directions[..i])
      {
        var fields := WalkRay(place, Directions[i]);
        assert Directions[..i + 1][..i] == Directions[..i];
        if fields != [] {
          rows := rows + [fields];
        }
      }
      assert Directions[..4] == Directions;
    }

    /** The `while (true)` walk of `getDiagonals` in one direction: the squares to the edge, nearest first. */
    method WalkRay(place: Position, d: Direction) returns (fields: seq<Position>)
      requires InRange(place)
      ensures fields == Ray(place, d)
    {
      fields := [];
      var checkerPosition := place;
      var next := MoveByDirection(checkerPosition, d);
      while next.Some?
        invariant InRange(checkerPosition) && next == MoveByDirection(checkerPosition, d)
        invariant fields + Ray(checkerPosition, d) == Ray(place, d)
        decreases Reach(checkerPosition, d)
      {
        var q := next.value;
        WalkOn(checkerPosition, d, fields);
        fields := fields + [q];
        checkerPosition := q;
        next := MoveByDirection(checkerPosition, d);
      }
    }

    /**
     * `hasVictimForQueen(board, diagonal)`: walking the diagonal, the first
     * piece met must be an enemy and the square after it empty.
     */
    method HasVictimForQueen(board: Checkerboard, diagonal: seq<Position>) returns (b: bool)
      requires board.Valid() && AllOnBoard(diagonal)
      ensures b == HasVictim(board.cells, color, diagonal)
    {
      var cs := board.cells;
      var hasVictim := false;
      for i := 0 to |diagonal|
        invariant !hasVictim ==> forall j :: 0 <= j < i ==> cs[Index(diagonal[j])].None?
        invariant hasVictim ==> 0 < i && FirstOccupied(cs, diagonal) == i - 1 && cs[Index(diagonal[i - 1])].value.color != color
      {
        var checker := cs[Index(diagonal[i])];
        if checker.Some? {
          if hasVictim {
            return false;
          }
          if checker.value.color != color {
            FirstOccupiedIs(cs, diagonal, i);
            hasVictim := true;
          } else {
            FirstOccupiedIs(cs, diagonal, i);
            return false;
          }
        } else if hasVictim {
          return true;
        }
      }
      return false;
    }

    /**
     * `findKillMovesForChecker(board, checker)` for the man on p: in each
     * direction, a capture over an enemy neighbour onto the empty square
     * behind it.
     */
    method FindKillMovesForChecker(board: Checkerboard, p: Position) returns (moves: seq<string>)
      requires board.Valid() && OnBoardAt(p)
      ensures moves == Commands(ManJumps(board.cells, color, p, 4))
    {
      moves := [];
      for i := 0 to 4
        invariant moves == Commands(ManJumps(board.cells, color, p, i))
      {
        var found := KillMoveIn(board, p, Directions[i]);
        CommandsAppend(ManJumps(board.cells, color, p, i), ManJumpIn(board.cells, color, p, Directions[i]));
        moves := moves + found;
      }
    }

    /** One pass of the loop of `findKillMovesForChecker`: the capture in direction `dir`, if there is one. */
    method KillMoveIn(board: Checkerboard, p: Position, dir: Direction) returns (found: seq<string>)
      requires board.Valid() && OnBoardAt(p)
      ensures found == Commands(ManJumpIn(board.cells, color, p, dir))
    {
      var pos := MoveByDirection(p, dir);
      if pos.None? {
        return [];
      }
      var victim := board.cells[Index(pos.value)];
      if victim.None? || victim.value.color == color {
        return [];
      }
      var nextPos := MoveByDirection(pos.value, dir);
      if nextPos.None? || board.cells[Index(nextPos.value)].Some? {
        return [];
      }
      found := [CommandText(p, nextPos.value)];
    }

    /**
     * `findKillMovesForQueen(board, checker)` for the queen on p: along each
     * diagonal with a victim, the landings after which the queen can capture
     * again, or every landing when there is none such.
     */
    method FindKillMovesForQueen(board: Checkerboard, p: Position) returns (finalMoves: seq<string>)
      requires board.Valid() && Ready(board.cells, p)
      ensures finalMoves == Commands(QueenJumps(board.cells, color, p))
      decreases Count(board.cells), 5
    {
      var diagonals := GetDiagonals(p);
      finalMoves := [];
      for j := 0 to |diagonals|
        invariant finalMoves == Commands(RowsJumps(board.cells, color, p, diagonals[..j]))
      {
        DiagonalIsRay(p, diagonals[j]);
        var found := QueenMovesOn(board, p, diagonals[j]);
        assert diagonals[..j + 1][..j] == diagonals[..j];
        CommandsAppend(RowsJumps(board.cells, color, p, diagonals[..j]), QueenDir(board.cells, color, p, DirOf(p, diagonals[j][0])));
        finalMoves := finalMoves + found;
      }
      assert diagonals[..|diagonals|] == diagonals;
      QueenDirsRows(board.cells, color, p, 4);
      assert Directions[..4] == Directions;
    }

    /**
     * One diagonal of `findKillMovesForQueen`: nothing unless it passes
     * `hasVictimForQueen`; otherwise the victim is its first piece and the
     * landings are the empty squares after it (`takeWhile`).
     */
    method QueenMovesOn(board: Checkerboard, p: Position, row: seq<Position>) returns (found: seq<string>)
      requires board.Valid() && Ready(board.cells, p) && row != [] && row == Ray(p, DirOf(p, row[0]))
      ensures found == Commands(QueenDir(board.cells, color, p, DirOf(p, row[0])))
      decreases Count(board.cells), 4
    {
      ghost var d := DirOf(p, row[0]);
      var victim := HasVictimForQueen(board, row);
      if !victim {
        QueenDirNone(board.cells, color, p, d);
        return [];
      }
      var v, e := VictimAndRun(board.cells, row);
      QueenDirLane(board.cells, color, p, d, v, e);
      found := Landings(board, p, d, row, v, e);
    }

    /** The place of the victim on a diagonal that has one, and the end of the `takeWhile` run of empty squares behind it. */
    method VictimAndRun(cs: Cells, row: seq<Position>) returns (v: int, e: int)
      requires |cs| == 64 && AllOnBoard(row) && HasVictim(cs, color, row)
      ensures LaneOn(cs, color, row, v, e)
    {
      v := FirstOccupied(cs, row);
      var after := TakeWhile(row[v + 1..], q => IsEmpty(cs, q));
      e := v + 1 + |after|;
      forall k | v + 1 <= k < e
        ensures cs[Index(row[k])].None?
      {
        assert row[k] == after[k - v - 1];
      }
      if e < |row| {
        assert row[e] == row[v + 1..][|after|];
      }
      EmptyRunIs(cs, row, v + 1, |after|);
      LaneOf(cs, color, row);
    }

    /**
     * The `forEach` over one diagonal's landings: each is tried on a clone,
     * and the commands kept are those of the attacking landings if there
     * are any, else those of all landings.
     */
    method Landings(board: Checkerboard, p: Position, ghost d: Direction, row: seq<Position>, v: int, e: int) returns (found: seq<string>)
      requires board.Valid() && Ready(board.cells, p) && Lane(board.cells, color, p, d, row, v, e)
      ensures found == Commands(QueenDiagonal(board.cells, color, p, d, row, v, e))
      decreases Count(board.cells), 3
    {
      ghost var cs := board.cells;
      var attackMoves: seq<string> := [];
      var moves: seq<string> := [];
      ghost var ts: seq<int> := [];
      for t := v + 1 to e
        invariant board.cells == cs
        invariant |moves| == t - v - 1 && Run(moves, row, v + 1)
        invariant ts + QueenAttacks(cs, color, p, d, row, v, e, t) == QueenAttacks(cs, color, p, d, row, v, e, v + 1)
        invariant Named(attackMoves, row, ts)
      {
        attackMoves, moves, ts := Visit(board, p, d, row, v, e, t, attackMoves, moves, ts);
      }
      assert ts == QueenAttacks(cs, color, p, d, row, v, e, v + 1);
      KeptLandings(cs, color, p, d, row, v, e, attackMoves, moves);
      found := FromSquare(p, if |attackMoves| > 0 then attackMoves else moves);
    }

    /** One turn of the landing loop: landing t is always kept as a move, and as an attacking move when the queen can capture again from it. */
    method Visit(board: Checkerboard, p: Position, ghost d: Direction, row: seq<Position>, v: int, e: int, t: int,
                 attackMoves: seq<string>, moves: seq<string>, ghost ts: seq<int>)
      returns (attackMoves': seq<string>, moves': seq<string>, ghost ts': seq<int>)
      requires board.Valid() && Ready(board.cells, p) && Lane(board.cells, color, p, d, row, v, e) && v < t < e
      requires |moves| == t - v - 1 && Run(moves, row, v + 1)
      requires ts + QueenAttacks(board.cells, color, p, d, row, v, e, t) == QueenAttacks(board.cells, color, p, d, row, v, e, v + 1)
      requires Named(attackMoves, row, ts)
      ensures moves' == moves + [row[t].text] && Run(moves', row, v + 1)
      ensures ts' + QueenAttacks(board.cells, color, p, d, row, v, e, t + 1) == QueenAttacks(board.cells, color, p, d, row, v, e, v + 1)
      ensures Named(attackMoves', row, ts')
      decreases Count(board.cells), 2
    {
      var attack := TryLanding(board, p, d, row, v, e, t);
      AttacksGrow(board.cells, color, p, d, row, v, e, t, ts);
      attackMoves', ts' := attackMoves, ts;
      if attack {
        NamedGrows(attackMoves, row, ts, t);
        attackMoves', ts' := attackMoves + [row[t].text], ts + [t];
      }
      RunGrows(moves, row, v + 1);
      moves' := moves + [row[t].text];
    }

    /**
     * One landing square t: on a clone, the victim removed and the queen
     * moved to t, does the queen have a capture of its own?
     */
    method TryLanding(board: Checkerboard, p: Position, ghost d: Direction, row: seq<Position>, v: int, e: int, t: int) returns (attack: bool)
      requires board.Valid() && Ready(board.cells, p) && Lane(board.cells, color, p, d, row, v, e) && v < t < e
      ensures attack == Continues(board.cells, color, p, d, row, v, e, t)
      decreases Count(board.cells), 1
    {
      ghost var c := Capture(p, row[t], d, v, t);
      LaneJump(board.cells, color, p, d, row, v, e, t);
      JumpSquares(board.cells, color, c);
      TrialFacts(board.cells, color, c);
      RayCanonical(p, d, v);
      AtValid(row[v].col, row[v].row);
      var trial := board.Clone();
      var removed := trial.Remove(row[v]);
      var ok, queen := trial.Move(p.text, row[t].text);
      trial.cells := trial.cells[Index(row[t]) := Some(queen.(queen := true))];
      assert trial.cells == Trial(board.cells, c);
      var next := FindKillMovesForQueen(trial, row[t]);
      attack := |next| > 0;
    }
    /**
     * `moveChecker(board, checker, command, commandChain)` for the man on p
     * that has made the captures `done`, whose commands are `commandChain`.
     * With a blank command the search starts from `board` as it is, cs. With
     * a command, `board` is a fresh clone of cs and the command is that of
     * capture c the man is offered there: `kill` plays it first, and a man it
     * promotes goes on with `moveQueen` on a clone of the board.
     */
    method MoveChecker(board: Checkerboard, p: Position, command: string, commandChain: seq<string>,
                       ghost cs: Cells, ghost c: Capture, ghost done: seq<Capture>)
      requires board.Valid() && Ready(cs, p) && commandChain == Commands(done)
      requires command == "" ==> board.cells == cs
      requires command != "" ==> board.cells == Cloned(cs) && c in ManJumps(cs, color, p, 4) && command == CommandText(c.from, c.to)
      modifies this, board
      ensures command == "" ==> board.cells == old(board.cells)
      ensures commandChains == old(commandChains) +
                ChainCommands(if command == "" then ManFrom(cs, color, p, done) else ManAfter(cs, color, p, c, done))
      decreases Count(cs), if command == "" then 4 else 0
    {
      if command == "" {
        SearchForMan(board, p, commandChain, done);
        return;
      }
      ghost var next: Cells, queen: Checker;
      queen, next := ManAfterKill(cs, color, p, c, done);
      var ok, killer := Kill(board, command);
      var at := ParseCommand(command).value.1;
      if killer.queen {
        var copy := board.Clone();
        MoveQueen(copy, at, "", commandChain, Cloned(next), c, done);
        return;
      }
      SearchForMan(board, at, commandChain, done);
    }

    /**
     * The rest of `moveChecker` once the killer stands on p: with no capture
     * left a non-empty chain is recorded; otherwise each capture goes on
     * from a fresh clone of the board, its command added to the chain.
     */
    method SearchForMan(board: Checkerboard, p: Position, commandChain: seq<string>, ghost done: seq<Capture>)
      requires board.Valid() && Ready(board.cells, p) && commandChain == Commands(done)
      modifies this
      ensures commandChains == old(commandChains) + ChainCommands(ManFrom(board.cells, color, p, done))
      decreases Count(board.cells), 3
    {
      ghost var cs := board.cells;
      var moves := FindKillMovesForChecker(board, p);
      if |moves| == 0 && |commandChain| > 0 {
        commandChains := commandChains + [commandChain];
        return;
      }
      ManCaptures(board, p, moves, commandChain, done);
      ManFromEach(cs, color, p, done);
    }

    /** The `forEach` over all the captures of the piece on p, each going on from a fresh clone of the board. */
    method ManCaptures(board: Checkerboard, p: Position, moves: seq<string>, commandChain: seq<string>, ghost done: seq<Capture>)
      requires board.Valid() && Ready(board.cells, p) && commandChain == Commands(done) && moves == Commands(ManJumps(board.cells, color, p, 4))
      modifies this
      ensures commandChains == old(commandChains) + ChainCommands(ManEach(board.cells, color, p, done, |moves|))
      decreases Count(board.cells), 2
    {
      ghost var cs, start := board.cells, commandChains;
      for i := 0 to |moves|
        invariant commandChains == start + ChainCommands(ManEach(cs, color, p, done, i))
      {
        ManCapture(board, p, moves, i, commandChain, done, start);
      }
    }

    /** One turn of the `forEach` of `moveChecker`: the i-th capture goes on from a fresh clone of the board. */
    method ManCapture(board: Checkerboard, p: Position, moves: seq<string>, i: nat, commandChain: seq<string>, ghost done: seq<Capture>,
                       ghost start: seq<seq<string>>)
      requires board.Valid() && Ready(board.cells, p) && commandChain == Commands(done)
      requires moves == Commands(ManJumps(board.cells, color, p, 4)) && i < |moves|
      requires commandChains == start + ChainCommands(ManEach(board.cells, color, p, done, i))
      modifies this
      ensures commandChains == start + ChainCommands(ManEach(board.cells, color, p, done, i + 1))
      decreases Count(board.cells), 1
    {
      ghost var c := ManJumps(board.cells, color, p, 4)[i];
      var copy := board.Clone();
      CommandsGrow(done, c);
      ManEachGrow(board.cells, color, p, done, i, start);
      MoveChecker(copy, p, moves[i], commandChain + [moves[i]], board.cells, c, done + [c]);
    }

    /**
     * `moveQueen(board, checker, command, commandChain)` for the queen on p
     * that has made the captures `done`. With a blank command the search
     * starts from `board` as it is, cs; with a command, `board` is a fresh
     * clone of cs and `killByQueen` first plays capture c.
     */
    method MoveQueen(board: Checkerboard, p: Position, command: string, commandChain: seq<string>,
                     ghost cs: Cells, ghost c: Capture, ghost done: seq<Capture>)
      requires board.Valid() && Ready(cs, p) && commandChain == Commands(done)
      requires command == "" ==> board.cells == cs
      requires command != "" ==> board.cells == Cloned(cs) && c in QueenJumps(cs, color, p) && command == CommandText(c.from, c.to)
      modifies this, board
      ensures command == "" ==> board.cells == old(board.cells)
      ensures commandChains == old(commandChains) +
                ChainCommands(if command == "" then QueenFrom(cs, color, p, done) else QueenAfter(cs, color, p, c, done))
      decreases Count(cs), if command == "" then 4 else 0
    {
      if command == "" {
        SearchForQueen(board, p, commandChain, done);
        return;
      }
      ghost var next: Cells, queen: Checker;
      queen, next := QueenAfterKill(cs, color, p, c, done);
      var ok, killer := KillByQueenCommand(board, command);
      var at := ParseCommand(command).value.1;
      SearchForQueen(board, at, commandChain, done);
    }

    /** The rest of `moveQueen` once the killer stands on p. */
    method SearchForQueen(board: Checkerboard, p: Position, commandChain: seq<string>, ghost done: seq<Capture>)
      requires board.Valid() && Ready(board.cells, p) && commandChain == Commands(done)
      modifies this
      ensures commandChains == old(commandChains) + ChainCommands(QueenFrom(board.cells, color, p, done))
      decreases Count(board.cells), 3
    {
      ghost var cs := board.cells;
      var moves := FindKillMovesForQueen(board, p);
      if |moves| == 0 && |commandChain| > 0 {
        commandChains := commandChains + [commandChain];
        return;
      }
      QueenCaptures(board, p, moves, commandChain, done);
      QueenFromEach(cs, color, p, done);
    }

    /** The `forEach` over all the captures of the piece on p, each going on from a fresh clone of the board. */
    method QueenCaptures(board: Checkerboard, p: Position, moves: seq<string>, commandChain: seq<string>, ghost done: seq<Capture>)
      requires board.Valid() && Ready(board.cells, p) && commandChain == Commands(done) && moves == Commands(QueenJumps(board.cells, color, p))
      modifies this
      ensures commandChains == old(commandChains) + ChainCommands(QueenEach(board.cells, color, p, done, |moves|))
      decreases Count(board.cells), 2
    {
      ghost var cs, start := board.cells, commandChains;
      for i := 0 to |moves|
        invariant commandChains == start + ChainCommands(QueenEach(cs, color, p, done, i))
      {
        QueenCapture(board, p, moves, i, commandChain, done, start);
      }
    }

    /** One turn of the `forEach` of `moveQueen`: the i-th capture goes on from a fresh clone of the board. */
    method QueenCapture(board: Checkerboard, p: Position, moves: seq<string>, i: nat, commandChain: seq<string>, ghost done: seq<Capture>,
                       ghost start: seq<seq<string>>)
      requires board.Valid() && Ready(board.cells, p) && commandChain == Commands(done)
      requires moves == Commands(QueenJumps(board.cells, color, p)) && i < |moves|
      requires commandChains == start + ChainCommands(QueenEach(board.cells, color, p, done, i))
      modifies this
      ensures commandChains == start + ChainCommands(QueenEach(board.cells, color, p, done, i + 1))
      decreases Count(board.cells), 1
    {
      ghost var c := QueenJumps(board.cells, color, p)[i];
      var copy := board.Clone();
      CommandsGrow(done, c);
      QueenEachGrow(board.cells, color, p, done, i, start);
      MoveQueen(copy, p, moves[i], commandChain + [moves[i]], board.cells, c, done + [c]);
    }
    /** One turn of the `forEach` of `calculateForCheckers`: a man searches from the board as it is; a queen is filtered out. */
    method CheckerTurn(pieces: seq<Piece>, i: nat, ghost start: seq<seq<string>>)
      requires checkerboard.Valid() && Standing(checkerboard.cells, color, pieces) && i < |pieces|
      requires commandChains == start + ChainCommands(MenChains(checkerboard.cells, color, pieces[..i]))
      modifies this, checkerboard
      ensures checkerboard.cells == old(checkerboard.cells)
      ensures commandChains == start + ChainCommands(MenChains(checkerboard.cells, color, pieces[..i + 1]))
    {
      MenChainsGrow(checkerboard.cells, color, pieces, i, start);
      var piece := pieces[i];
      if !piece.checker.queen {
        MoveChecker(checkerboard, piece.at, "", [], checkerboard.cells, Capture(piece.at, piece.at, NW, 0, 0), []);
      }
    }

    /** `calculateForCheckers()`: every man of the side searches for capture chains on the board as it is. */
    method CalculateForCheckers()
      requires checkerboard.Valid() && AllDark(checkerboard.cells)
      modifies this, checkerboard
      ensures checkerboard.cells == old(checkerboard.cells)
      ensures commandChains == old(commandChains) + ChainCommands(MenChains(checkerboard.cells, color, CheckersFrom(checkerboard.cells, color, 0)))
    {
      var pieces := checkerboard.GetCheckers(color);
      CheckersStanding(checkerboard.cells, color);
      CheckerTurns(pieces);
    }

    /** The `forEach` of `calculateForCheckers` over the listed pieces. */
    method CheckerTurns(pieces: seq<Piece>)
      requires checkerboard.Valid() && Standing(checkerboard.cells, color, pieces)
      modifies this, checkerboard
      ensures checkerboard.cells == old(checkerboard.cells)
      ensures commandChains == old(commandChains) + ChainCommands(MenChains(checkerboard.cells, color, pieces))
    {
      for i := 0 to |pieces|
        invariant checkerboard.cells == old(checkerboard.cells)
        invariant commandChains == old(commandChains) + ChainCommands(MenChains(checkerboard.cells, color, pieces[..i]))
      {
        CheckerTurn(pieces, i, old(commandChains));
      }
      assert pieces[..|pieces|] == pieces;
    }

    /** One turn of the `forEach` of `calculateForQueens`: a queen searches from the board as it is; a man is filtered out. */
    method QueenTurn(pieces: seq<Piece>, i: nat, ghost start: seq<seq<string>>)
      requires checkerboard.Valid() && Standing(checkerboard.cells, color, pieces) && i < |pieces|
      requires commandChains == start + ChainCommands(QueensChains(checkerboard.cells, color, pieces[..i]))
      modifies this, checkerboard
      ensures checkerboard.cells == old(checkerboard.cells)
      ensures commandChains == start + ChainCommands(QueensChains(checkerboard.cells, color, pieces[..i + 1]))
    {
      QueensChainsGrow(checkerboard.cells, color, pieces, i, start);
      var piece := pieces[i];
      if piece.checker.queen {
        MoveQueen(checkerboard, piece.at, "", [], checkerboard.cells, Capture(piece.at, piece.at, NW, 0, 0), []);
      }
    }

    /** `calculateForQueens()`: every queen of the side searches for capture chains on the board as it is. */
    method CalculateForQueens()
      requires checkerboard.Valid() && AllDark(checkerboard.cells)
      modifies this, checkerboard
      ensures checkerboard.cells == old(checkerboard.cells)
      ensures commandChains == old(commandChains) + ChainCommands(QueensChains(checkerboard.cells, color, CheckersFrom(checkerboard.cells, color, 0)))
    {
      var pieces := checkerboard.GetCheckers(color);
      CheckersStanding(checkerboard.cells, color);
      QueenTurns(pieces);
    }

    /** The `forEach` of `calculateForQueens` over the listed pieces. */
    method QueenTurns(pieces: seq<Piece>)
      requires checkerboard.Valid() && Standing(checkerboard.cells, color, pieces)
      modifies this, checkerboard
      ensures checkerboard.cells == old(checkerboard.cells)
      ensures commandChains == old(commandChains) + ChainCommands(QueensChains(checkerboard.cells, color, pieces))
    {
      for i := 0 to |pieces|
        invariant checkerboard.cells == old(checkerboard.cells)
        invariant commandChains == old(commandChains) + ChainCommands(QueensChains(checkerboard.cells, color, pieces[..i]))
      {
        QueenTurn(pieces, i, old(commandChains));
      }
      assert pieces[..|pieces|] == pieces;
    }

    /**
     * `getAvailableKillSteps()`: the chains of the men, then of the queens,
     * each reduced to the text of the squares it visits.
     */
    method GetAvailableKillSteps() returns (steps: seq<string>)
      requires checkerboard.Valid() && AllDark(checkerboard.cells)
      modifies this, checkerboard
      ensures checkerboard.cells == old(checkerboard.cells)
      ensures commandChains == ChainCommands(KillChains(checkerboard.cells, color))
      ensures steps == KillSteps(checkerboard.cells, color)
    {
      commandChains := [];
      CalculateForCheckers();
      CalculateForQueens();
      KillCommands(checkerboard.cells, color, commandChains);
      KillStepsReduced(checkerboard.cells, color);
      steps := Reduced(commandChains);
    }

    /** The steps of the man on `at` in `getAvailableMoveSteps`: to each empty neighbour in its forward directions. */
    method ManMoveSteps(at: Position, pieceColor: int) returns (found: seq<string>)
      requires checkerboard.Valid() && OnBoardAt(at)
      ensures found == ManSlides(checkerboard.cells, at, Forward(pieceColor))
    {
      var directions := if pieceColor == White then [NW, NE] else [SW, SE];
      found := [];
      for j := 0 to |directions|
        invariant found == ManSlides(checkerboard.cells, at, directions[..j])
      {
        assert directions[..j + 1][..j] == directions[..j];
        var next := MoveByDirection(at, directions[j]);
        if next.Some? {
          var field := checkerboard.GetField(next.value);
          if field.value.checker.None? {
            found := found + [MoveText(at, next.value)];
          }
        }
      }
      assert directions[..|directions|] == directions;
    }

    /** The steps of a queen on `at` along one diagonal: every square when no piece is on it, else those before the first piece. */
    method RowMoveSteps(at: Position, row: seq<Position>) returns (found: seq<string>)
      requires checkerboard.Valid() && AllOnBoard(row)
      ensures found == RowSlides(checkerboard.cells, at, row)
    {
      var cs := checkerboard.cells;
      if forall q :: q in row ==> IsEmpty(cs, q) {
        found := Map(q => MoveText(at, q), row);
      } else {
        found := Map(q => MoveText(at, q), TakeWhile(row, q => IsEmpty(cs, q)));
      }
    }

    /** The steps of the queen on `at` in `getAvailableMoveSteps`: along each of its diagonals in turn. */
    method QueenMoveSteps(at: Position) returns (found: seq<string>)
      requires checkerboard.Valid() && OnBoardAt(at)
      ensures found == RowsSlides(checkerboard.cells, at, Diagonals(at))
    {
      var rows := GetDiagonals(at);
      found := [];
      for j := 0 to |rows|
        invariant found == RowsSlides(checkerboard.cells, at, rows[..j])
      {
        assert rows[..j + 1][..j] == rows[..j];
        var more := RowMoveSteps(at, rows[j]);
        found := found + more;
      }
      assert rows[..|rows|] == rows;
    }

    /** `getAvailableMoveSteps()`: the quiet moves of the side's pieces, piece by piece in board order. */
    method GetAvailableMoveSteps() returns (steps: seq<string>)
      requires checkerboard.Valid()
      ensures steps == MoveSteps(checkerboard.cells, color)
    {
      var pieces := checkerboard.GetCheckers(color);
      steps := MoveStepsOf(pieces);
    }

    /** The `forEach` of `getAvailableMoveSteps` over the listed pieces. */
    method MoveStepsOf(pieces: seq<Piece>) returns (steps: seq<string>)
      requires checkerboard.Valid() && forall i :: 0 <= i < |pieces| ==> OnBoardAt(pieces[i].at)
      ensures steps == SlidesOf(checkerboard.cells, pieces)
    {
      steps := [];
      for i := 0 to |pieces|
        invariant steps == SlidesOf(checkerboard.cells, pieces[..i])
      {
        assert pieces[..i + 1][..i] == pieces[..i];
        var more := PieceMoveSteps(pieces[i]);
        steps := steps + more;
      }
      assert pieces[..|pieces|] == pieces;
    }

    /** The steps one piece adds in `getAvailableMoveSteps`: a man's forward steps or a queen's slides. */
    method PieceMoveSteps(piece: Piece) returns (found: seq<string>)
      requires checkerboard.Valid() && OnBoardAt(piece.at)
      ensures found == PieceSlides(checkerboard.cells, piece)
    {
      if !piece.checker.queen {
        found := ManMoveSteps(piece.at, piece.checker.color);
      } else {
        found := QueenMoveSteps(piece.at);
      }
    }

    /** `steps`: the capture steps when there are any, else the quiet moves. */
    method Steps() returns (steps: seq<string>)
      requires checkerboard.Valid() && AllDark(checkerboard.cells)
      modifies this, checkerboard
      ensures checkerboard.cells == old(checkerboard.cells)
      ensures steps == EarlySteps.Steps(checkerboard.cells, color)
    {
      var kills := GetAvailableKillSteps();
      if |kills| > 0 {
        steps := kills;
      } else {
        steps := GetAvailableMoveSteps();
      }
    }
  }
}
