/**
 * What the earlier engine's move search (`StepSearcher`) computes, as
 * values: the quiet moves, the captures a man or a queen has from a square,
 * and the capture chains found by playing captures on board clones until no
 * further capture exists.
 *
 * The search only terminates because every capture removes a piece, and a
 * capture removes a piece only if that piece stands on a dark field (`place`
 * ignores light fields). Boards built by `create` and `place` keep all pieces
 * on dark fields and captures keep it so; the search functions require it.
 */
module EarlySteps {
  import opened Common
  import opened EarlyPosition
  import opened EarlyBoard
  import opened EarlyActions

  // ---------------------------------------------------------------------------
  // Pieces on dark fields

  /** Every piece stands on a dark field. */
  predicate AllDark(cs: Cells)
  {
    |cs| == 64 && forall k :: 0 <= k < 64 && cs[k].Some? ==> FieldColor(k) == 1
  }

  /** No piece is a queen, as on every board `clone` returns. */
  predicate NoQueens(cs: Cells)
  {
    forall k :: 0 <= k < |cs| && cs[k].Some? ==> !cs[k].value.queen
  }

  /** A piece stands on square p of a board whose pieces all stand on dark fields. */
  predicate Ready(cs: Cells, p: Position)
  {
    AllDark(cs) && Canonical(p) && cs[Index(p)].Some?
  }

  /** An occupied square of such a board is dark. */
  lemma OccupiedIsDark(cs: Cells, p: Position)
    requires AllDark(cs) && OnBoardAt(p) && cs[Index(p)].Some?
    ensures Dark(p)
  {
    DarkField(p);
  }

  /** Moving k + 1 squares along a diagonal keeps the colour of the square. */
  lemma DiagonalParity(col: int, row: int, d: Direction, k: int)
    ensures (ColAfter(col, d, k + 1) + RowAfter(row, d, k + 1)) % 2 == (col + row) % 2
  {
    var c, r := ColAfter(col, d, k + 1), RowAfter(row, d, k + 1);
    var s, m := col + row, k + 1;
    if c + r == s + 2 * m {
      assert (s + 2 * m) % 2 == s % 2;
    } else if c + r == s - 2 * m {
      assert (s - 2 * m) % 2 == s % 2;
    } else {
      assert c + r == s;
    }
  }

  /** Every square of a ray from a dark square is dark. */
  lemma RayDark(p: Position, d: Direction, k: int)
    requires InRange(p) && Dark(p) && 0 <= k < |Ray(p, d)|
    ensures Dark(Ray(p, d)[k])
  {
    RaySquare(p, d, k);
    DiagonalParity(p.col, p.row, d, k);
  }

  /** A clone keeps the pieces on the same fields, with no queens. */
  lemma ClonedDark(cs: Cells)
    requires AllDark(cs)
    ensures AllDark(Cloned(cs)) && NoQueens(Cloned(cs)) && Count(Cloned(cs)) == Count(cs)
  {
    ClonedFacts(cs);
  }

  // ---------------------------------------------------------------------------
  // Captures

  /**
   * A capture from square `from` along direction `d`: the victim is the v-th
   * square of the ray and the landing square `to` its t-th square. Its
   * command text is `CommandText(from, to)`.
   */
  datatype Capture = Capture(from: Position, to: Position, d: Direction, v: nat, t: nat)

  /**
   * c is a legal capture on cs for the side `color`: a piece stands on
   * `from`, the first occupied square of the ray is the victim, an enemy, and
   * every square after it up to and including `to` is empty.
   */
  predicate Jump(cs: Cells, color: int, c: Capture)
  {
    Ready(cs, c.from) &&
    var ray := Ray(c.from, c.d);
    c.v < c.t < |ray| && c.to == ray[c.t] &&
    (forall k :: 0 <= k < c.v ==> cs[Index(ray[k])].None?) &&
    cs[Index(ray[c.v])].Some? && cs[Index(ray[c.v])].value.color != color &&
    (forall k :: c.v < k <= c.t ==> cs[Index(ray[k])].None?)
  }

  /** A man's capture: over the neighbouring square to the square right behind it. */
  predicate Short(c: Capture)
  {
    c.v == 0 && c.t == 1
  }

  /** The captured square. */
  function Victim(c: Capture): (p: Position)
    requires InRange(c.from) && c.v < |Ray(c.from, c.d)|
    ensures Canonical(p)
  {
    RayCanonical(c.from, c.d, c.v);
    Ray(c.from, c.d)[c.v]
  }

  /** The first occupied square of a list is the one after a run of empty squares. */
  lemma {:induction false} FirstOccupiedIs(cs: Cells, ray: seq<Position>, v: int)
    requires |cs| == 64 && AllOnBoard(ray) && 0 <= v < |ray| && cs[Index(ray[v])].Some?
    requires forall j :: 0 <= j < v ==> cs[Index(ray[j])].None?
    ensures FirstOccupied(cs, ray) == v
  {
    if v > 0 {
      FirstOccupiedIs(cs, ray[1..], v - 1);
    }
  }

  /** The capture's squares: the landing square and the victim are distinct squares of the ray, both away from `from`. */
  lemma JumpSquares(cs: Cells, color: int, c: Capture)
    requires Jump(cs, color, c)
    ensures Index(Victim(c)) != Index(c.from) && Index(c.to) != Index(c.from) && Index(Victim(c)) != Index(c.to)
    ensures Dark(c.from) && Dark(c.to) && Dark(Victim(c))
    ensures Canonical(c.to) && EarlyPosition.Valid(c.to) && EarlyPosition.Valid(c.from)
    ensures ':' !in c.from.text && ':' !in c.to.text
  {
    RaySquare(c.from, c.d, c.v);
    RaySquare(c.from, c.d, c.t);
    RayCanonical(c.from, c.d, c.t);
    OccupiedIsDark(cs, c.from);
    RayDark(c.from, c.d, c.t);
    RayDark(c.from, c.d, c.v);
    AtValid(c.from.col, c.from.row);
    AtValid(c.to.col, c.to.row);
  }

  /**
   * The fields after capture c by `killer`: `from` emptied, `to` holding the
   * capturing checker and the victim's square emptied.
   */
  function CaptureCells(cs: Cells, c: Capture, killer: Checker): (r: Cells)
    requires |cs| == 64 && OnBoardAt(c.from) && OnBoardAt(c.to) && c.v < |Ray(c.from, c.d)|
    ensures |r| == 64
  {
    Moved(cs, Index(c.from), Index(c.to))[Index(c.to) := Some(killer)][Index(Victim(c)) := None]
  }

  /** A capture removes exactly one piece and keeps all pieces on dark fields. */
  lemma CaptureCount(cs: Cells, color: int, c: Capture, killer: Checker)
    requires Jump(cs, color, c)
    ensures Count(CaptureCells(cs, c, killer)) == Count(cs) - 1
    ensures AllDark(CaptureCells(cs, c, killer))
    ensures CaptureCells(cs, c, killer)[Index(c.to)] == Some(killer)
  {
    JumpSquares(cs, color, c);
    var i, j, m := Index(c.from), Index(c.to), Index(Victim(c));
    var s1 := cs[i := None];
    CountUpdate(cs, i, None);
    var s2 := s1[j := cs[i]];
    CountUpdate(s1, j, cs[i]);
    var s3 := s2[j := Some(killer)];
    CountUpdate(s2, j, Some(killer));
    CountUpdate(s3, m, None);
    DarkField(c.to);
  }

  /** The square halfway between a square and the second square of one of its rays is the first square of that ray. */
  lemma MidpointOfRay(p: Position, d: Direction)
    requires OnBoardAt(p) && 2 <= |Ray(p, d)|
    ensures Midpoint(p, Ray(p, d)[1]) == Ray(p, d)[0]
  {
    var q0, q1 := Ray(p, d)[0], Ray(p, d)[1];
    RaySquare(p, d, 0);
    RaySquare(p, d, 1);
    assert (p.col + q1.col) / 2 == q0.col && (p.row + q1.row) / 2 == q0.row;
  }

  /** The square halfway along a man's capture is its victim. */
  lemma MidpointOfShort(cs: Cells, color: int, c: Capture)
    requires Jump(cs, color, c) && Short(c)
    ensures Midpoint(c.from, c.to) == Victim(c)
  {
    MidpointOfRay(c.from, c.d);
  }

  /** A man's capture, given by its command on a board without queens, takes exactly its victim. */
  lemma ManKill(cs: Cells, color: int, c: Capture)
    requires Jump(cs, color, c) && Short(c) && NoQueens(cs)
    ensures KillSpec(cs, CommandText(c.from, c.to)) == KillByCheckerSpec(cs, c.from, c.to)
    ensures var killer := TestQueen(cs[Index(c.from)].value, c.to.row);
            KillByCheckerSpec(cs, c.from, c.to) == Some(Outcome(CaptureCells(cs, c, killer), killer))
  {
    JumpSquares(cs, color, c);
    KillOfCommand(cs, c.from, c.to);
    MidpointOfShort(cs, color, c);
    var killer := TestQueen(cs[Index(c.from)].value, c.to.row);
    var moved := Moved(cs, Index(c.from), Index(c.to))[Index(c.to) := Some(killer)];
    OccupiedIsDark(cs, Victim(c));
    DarkField(Victim(c));
    assert Accepts(moved, None, Index(Victim(c)));
  }

  /** Moving the queen leaves the ray before `to` as it was. */
  lemma QueenMovedRay(cs: Cells, color: int, c: Capture)
    requires Jump(cs, color, c)
    ensures forall j :: 0 <= j <= c.v ==> QueenMoved(cs, c.from, c.to)[Index(Ray(c.from, c.d)[j])] == cs[Index(Ray(c.from, c.d)[j])]
  {
    var ray := Ray(c.from, c.d);
    forall j | 0 <= j <= c.v
      ensures QueenMoved(cs, c.from, c.to)[Index(ray[j])] == cs[Index(ray[j])]
    {
      RaySquare(c.from, c.d, j);
      RayDistinct(c.from, c.d, j, c.t);
    }
  }

  /** A queen's capture, given by its squares, takes exactly its victim: the walk stops there. */
  lemma QueenKill(cs: Cells, color: int, c: Capture)
    requires Jump(cs, color, c)
    ensures var killer := cs[Index(c.from)].value.(queen := true);
            KillByQueenSpec(cs, c.from, c.to) == Some(Outcome(CaptureCells(cs, c, killer), killer))
  {
    JumpSquares(cs, color, c);
    DirOfRay(c.from, c.d, c.t);
    var moved := QueenMoved(cs, c.from, c.to);
    var ray := Ray(c.from, c.d);
    QueenMovedRay(cs, color, c);
    FirstOccupiedIs(moved, ray, c.v);
    WalkFindsFirst(moved, c.from, c.d);
    OccupiedIsDark(cs, Victim(c));
    DarkField(Victim(c));
  }

  // ---------------------------------------------------------------------------
  // A man's captures

  /**
   * One direction of `findKillMovesForChecker`: the neighbour holds a piece
   * of the other side and the square behind it is on the board and empty.
   */
  function ManJumpIn(cs: Cells, color: int, p: Position, d: Direction): (r: seq<Capture>)
    requires |cs| == 64 && OnBoardAt(p)
    ensures |r| <= 1
  {
    match MoveByDirection(p, d)
    case None => []
    case Some(pos) =>
      if cs[Index(pos)].None? || cs[Index(pos)].value.color == color then []
      else
        match MoveByDirection(pos, d)
        case None => []
        case Some(next) => if cs[Index(next)].Some? then [] else [Capture(p, next, d, 0, 1)]
  }

  /** `findKillMovesForChecker` over the first n directions of NW, NE, SW, SE. */
  function ManJumps(cs: Cells, color: int, p: Position, n: nat): (r: seq<Capture>)
    requires |cs| == 64 && OnBoardAt(p) && n <= 4
  {
    if n == 0 then [] else ManJumps(cs, color, p, n - 1) + ManJumpIn(cs, color, p, Directions[n - 1])
  }

  /** The one capture a man on p may have in direction d: over the first square of the ray to the second. */
  function ShortCapture(p: Position, d: Direction): (c: Capture)
    requires OnBoardAt(p) && 2 <= |Ray(p, d)|
  {
    Capture(p, Ray(p, d)[1], d, 0, 1)
  }

  /** A direction yields a capture exactly when the man's short capture in it is legal. */
  lemma ManJumpInExact(cs: Cells, color: int, p: Position, d: Direction)
    requires Ready(cs, p)
    ensures ManJumpIn(cs, color, p, d) == if 2 <= |Ray(p, d)| && Jump(cs, color, ShortCapture(p, d)) then [ShortCapture(p, d)] else []
  {
    var ray := Ray(p, d);
    if |ray| > 0 {
      RayNext(p, d, 0);
      if |ray| > 1 && cs[Index(ray[0])].Some? && cs[Index(ray[1])].None? {
        FirstOccupiedIs(cs, ray, 0);
      }
    }
  }

  /** Every capture found is the man's legal short capture in its direction. */
  lemma {:induction false} ManJumpsSound(cs: Cells, color: int, p: Position, n: nat, c: Capture)
    requires Ready(cs, p) && n <= 4 && c in ManJumps(cs, color, p, n)
    ensures c.from == p && Short(c) && Jump(cs, color, c)
  {
    var d := Directions[n - 1];
    ManJumpInExact(cs, color, p, d);
    if c in ManJumps(cs, color, p, n - 1) {
      ManJumpsSound(cs, color, p, n - 1, c);
    }
  }

  /** A capture found in one of the first n directions is found by the whole scan over them. */
  lemma {:induction false} ManJumpsComplete(cs: Cells, color: int, p: Position, n: nat, c: Capture)
    requires |cs| == 64 && OnBoardAt(p) && n <= 4
    requires c.d in Directions[..n] && c in ManJumpIn(cs, color, p, c.d)
    ensures c in ManJumps(cs, color, p, n)
  {
    if Directions[n - 1] != c.d {
      assert Directions[..n] == Directions[..n - 1] + [Directions[n - 1]];
      ManJumpsComplete(cs, color, p, n - 1, c);
    }
  }

  /**
   * `findKillMovesForChecker`: a capture from p is listed exactly when it is
   * a legal short capture, whatever its direction.
   */
  lemma ManJumpsExact(cs: Cells, color: int, p: Position, c: Capture)
    requires Ready(cs, p) && c.from == p
    ensures c in ManJumps(cs, color, p, 4) <==> Short(c) && Jump(cs, color, c)
  {
    if c in ManJumps(cs, color, p, 4) {
      ManJumpsSound(cs, color, p, 4, c);
    }
    if Short(c) && Jump(cs, color, c) {
      ManJumpInExact(cs, color, p, c.d);
      assert c == ShortCapture(p, c.d);
      assert Directions[..4] == Directions;
      ManJumpsComplete(cs, color, p, 4, c);
    }
  }

  // ---------------------------------------------------------------------------
  // A queen's captures

  /**
   * `hasVictimForQueen(diagonal)`: the first occupied square holds a piece of
   * the other side and the square after it exists and is empty.
   */
  predicate HasVictim(cs: Cells, color: int, ray: seq<Position>)
    requires |cs| == 64 && AllOnBoard(ray)
  {
    var i := FirstOccupied(cs, ray);
    0 <= i && cs[Index(ray[i])].value.color != color && i + 1 < |ray| && cs[Index(ray[i + 1])].None?
  }

  /** The number of empty squares of the list from place s on, up to the next occupied square. */
  function EmptyRun(cs: Cells, ray: seq<Position>, s: nat): (n: nat)
    requires |cs| == 64 && AllOnBoard(ray) && s <= |ray|
    ensures s + n <= |ray|
    ensures forall k :: s <= k < s + n ==> cs[Index(ray[k])].None?
    ensures s + n < |ray| ==> cs[Index(ray[s + n])].Some?
    decreases |ray| - s
  {
    if s == |ray| || cs[Index(ray[s])].Some? then 0 else 1 + EmptyRun(cs, ray, s + 1)
  }

  /** The end, exclusive, of the landing squares behind the first piece of a list of squares. */
  function LandingEnd(cs: Cells, ray: seq<Position>): (e: nat)
    requires |cs| == 64 && AllOnBoard(ray) && 0 <= FirstOccupied(cs, ray)
    ensures FirstOccupied(cs, ray) < e <= |ray|
  {
    var v := FirstOccupied(cs, ray);
    v + 1 + EmptyRun(cs, ray, v + 1)
  }

  /**
   * The board of one landing trial in `findKillMovesForQueen`: a clone, with
   * the victim removed and the queen moved to the landing square q.
   */
  function Trial(cs: Cells, c: Capture): (r: Cells)
    requires |cs| == 64 && OnBoardAt(c.from) && OnBoardAt(c.to) && c.v < |Ray(c.from, c.d)|
    requires cs[Index(c.from)].Some? && Index(Victim(c)) != Index(c.from)
    ensures |r| == 64
  {
    var removed := Placed(Cloned(cs), None, Index(Victim(c)));
    var moved := Moved(removed, Index(c.from), Index(c.to));
    moved[Index(c.to) := Some(removed[Index(c.from)].value.(queen := true))]
  }

  /** A trial board holds one piece fewer, all on dark fields, with the queen on the landing square. */
  lemma TrialFacts(cs: Cells, color: int, c: Capture)
    requires Jump(cs, color, c)
    ensures Index(Victim(c)) != Index(c.from)
    ensures Count(Trial(cs, c)) == Count(cs) - 1 && Ready(Trial(cs, c), c.to)
  {
    JumpSquares(cs, color, c);
    var i, j, m := Index(c.from), Index(c.to), Index(Victim(c));
    var cl := Cloned(cs);
    ClonedDark(cs);
    DarkField(Victim(c));
    var removed := cl[m := None];
    CountUpdate(cl, m, None);
    var s1 := removed[i := None];
    CountUpdate(removed, i, None);
    var s2 := s1[j := removed[i]];
    CountUpdate(s1, j, removed[i]);
    CountUpdate(s2, j, Some(removed[i].value.(queen := true)));
    DarkField(c.to);
  }

  /**
   * p's diagonal d as `findKillMovesForQueen` sees it: `ray` is the diagonal,
   * its v-th square holds the first piece on it, an enemy, and the squares
   * v + 1 .. e - 1 behind it, at least one, are empty, up to the edge or the
   * next piece.
   */
  predicate Lane(cs: Cells, color: int, p: Position, d: Direction, ray: seq<Position>, v: int, e: int)
    requires |cs| == 64 && OnBoardAt(p)
  {
    ray == Ray(p, d) && LaneOn(cs, color, ray, v, e)
  }

  /** The victim and landing run of a lane, on any list of on-board squares. */
  predicate LaneOn(cs: Cells, color: int, ray: seq<Position>, v: int, e: int)
    requires |cs| == 64 && AllOnBoard(ray)
  {
    0 <= v && v + 1 < e <= |ray| &&
    (forall k :: 0 <= k < v ==> cs[Index(ray[k])].None?) &&
    cs[Index(ray[v])].Some? && cs[Index(ray[v])].value.color != color &&
    (forall k :: v < k < e ==> cs[Index(ray[k])].None?) &&
    (e < |ray| ==> cs[Index(ray[e])].Some?)
  }

  /** The run of empty squares from place s on has length n when the n squares are empty and the next is occupied or past the end. */
  lemma {:induction false} EmptyRunIs(cs: Cells, ray: seq<Position>, s: nat, n: nat)
    requires |cs| == 64 && AllOnBoard(ray) && s + n <= |ray|
    requires forall k :: s <= k < s + n ==> cs[Index(ray[k])].None?
    requires s + n < |ray| ==> cs[Index(ray[s + n])].Some?
    ensures EmptyRun(cs, ray, s) == n
    decreases n
  {
    if n > 0 {
      EmptyRunIs(cs, ray, s + 1, n - 1);
    }
  }

  /** A list of squares that passes `hasVictimForQueen` has a lane: its first piece and the empty run behind it. */
  lemma LaneOf(cs: Cells, color: int, ray: seq<Position>)
    requires |cs| == 64 && AllOnBoard(ray) && HasVictim(cs, color, ray)
    ensures LaneOn(cs, color, ray, FirstOccupied(cs, ray), LandingEnd(cs, ray))
  {
  }

  /** A list of squares with a lane passes `hasVictimForQueen`, and the lane is the one LaneOf gives. */
  lemma LaneUnique(cs: Cells, color: int, ray: seq<Position>, v: int, e: int)
    requires |cs| == 64 && AllOnBoard(ray) && LaneOn(cs, color, ray, v, e)
    ensures HasVictim(cs, color, ray) && v == FirstOccupied(cs, ray) && e == LandingEnd(cs, ray)
  {
    FirstOccupiedIs(cs, ray, v);
    EmptyRunIs(cs, ray, v + 1, e - v - 1);
  }

  /** Landing on any square of a lane's empty run is a legal capture. */
  lemma LaneJump(cs: Cells, color: int, p: Position, d: Direction, ray: seq<Position>, v: int, e: int, t: int)
    requires Ready(cs, p) && Lane(cs, color, p, d, ray, v, e) && v < t < e
    ensures Jump(cs, color, Capture(p, ray[t], d, v, t))
  {
  }

  /** `findKillMovesForQueen` from square p. */
  function QueenJumps(cs: Cells, color: int, p: Position): (r: seq<Capture>)
    requires Ready(cs, p)
    decreases Count(cs), 4, 0
  {
    QueenDirs(cs, color, p, 4)
  }

  /** The captures of the first n diagonals, in the order NW, NE, SW, SE. */
  function QueenDirs(cs: Cells, color: int, p: Position, n: nat): (r: seq<Capture>)
    requires Ready(cs, p) && n <= 4
    decreases Count(cs), 3, n
  {
    if n == 0 then [] else QueenDirs(cs, color, p, n - 1) + QueenDir(cs, color, p, Directions[n - 1])
  }

  /** One diagonal: its captures if it passes `hasVictimForQueen`, none otherwise. */
  function QueenDir(cs: Cells, color: int, p: Position, d: Direction): (r: seq<Capture>)
    requires Ready(cs, p)
    decreases Count(cs), 2, 1
  {
    var ray := Ray(p, d);
    if |ray| > 0 && HasVictim(cs, color, ray) then
      LaneOf(cs, color, ray);
      QueenDiagonal(cs, color, p, d, ray, FirstOccupied(cs, ray), LandingEnd(cs, ray))
    else []
  }

  /**
   * One diagonal with a victim: the captures landing where the queen can
   * capture again, or, if there is no such square, on every square of the
   * empty run.
   */
  function QueenDiagonal(cs: Cells, color: int, p: Position, d: Direction, ray: seq<Position>, v: int, e: int): (r: seq<Capture>)
    requires Ready(cs, p) && Lane(cs, color, p, d, ray, v, e)
    decreases Count(cs), 2, 0
  {
    var attack := QueenAttacks(cs, color, p, d, ray, v, e, v + 1);
    if attack != [] then LandingsAt(p, d, ray, v, attack) else LandingsFrom(p, d, ray, v, v + 1, e)
  }

  /** The places, from t on and in order, of the landing squares after which the queen can capture again. */
  function QueenAttacks(cs: Cells, color: int, p: Position, d: Direction, ray: seq<Position>, v: int, e: int, t: int): (r: seq<int>)
    requires Ready(cs, p) && Lane(cs, color, p, d, ray, v, e) && v < t <= e
    ensures forall i :: 0 <= i < |r| ==> t <= r[i] < e
    decreases Count(cs), 1, e - t
  {
    if t == e then []
    else (if Continues(cs, color, p, d, ray, v, e, t) then [t] else []) + QueenAttacks(cs, color, p, d, ray, v, e, t + 1)
  }

  /** The captures from p over the v-th square of the diagonal `ray` landing on the squares numbered ts. */
  function LandingsAt(p: Position, d: Direction, ray: seq<Position>, v: int, ts: seq<int>): (r: seq<Capture>)
    requires 0 <= v && forall i :: 0 <= i < |ts| ==> 0 <= ts[i] < |ray|
    ensures |r| == |ts|
    ensures forall i :: 0 <= i < |r| ==> r[i] == Capture(p, ray[ts[i]], d, v, ts[i])
  {
    if ts == [] then [] else [Capture(p, ray[ts[0]], d, v, ts[0])] + LandingsAt(p, d, ray, v, ts[1..])
  }

  /** The captures from p over the v-th square of the diagonal `ray` landing on the squares t .. e - 1. */
  function LandingsFrom(p: Position, d: Direction, ray: seq<Position>, v: int, t: int, e: int): (r: seq<Capture>)
    requires 0 <= v && 0 <= t <= e <= |ray|
    ensures |r| == e - t
    ensures forall i :: 0 <= i < |r| ==> r[i] == Capture(p, ray[t + i], d, v, t + i)
    decreases e - t
  {
    if t == e then [] else [Capture(p, ray[t], d, v, t)] + LandingsFrom(p, d, ray, v, t + 1, e)
  }

  /** Whether the queen, having captured onto the t-th square of the lane on a trial board, can capture again. */
  predicate Continues(cs: Cells, color: int, p: Position, d: Direction, ray: seq<Position>, v: int, e: int, t: int)
    requires Ready(cs, p) && Lane(cs, color, p, d, ray, v, e) && v < t < e
    decreases Count(cs), 0, 1
  {
    LaneJump(cs, color, p, d, ray, v, e, t);
    CanContinue(cs, color, Capture(p, ray[t], d, v, t))
  }

  /** After capture c, played on a clone, the queen on the landing square has a capture of its own. */
  predicate CanContinue(cs: Cells, color: int, c: Capture)
    requires Jump(cs, color, c)
    decreases Count(cs), 0, 0
  {
    TrialFacts(cs, color, c);
    QueenJumps(Trial(cs, c), color, c.to) != []
  }

  /** The landings from t on that QueenAttacks keeps are exactly those after which the queen can capture again. */
  lemma {:induction false} QueenAttacksHas(cs: Cells, color: int, p: Position, d: Direction, ray: seq<Position>, v: int, e: int, t: int, x: int)
    requires Ready(cs, p) && Lane(cs, color, p, d, ray, v, e) && v < t <= e
    ensures x in QueenAttacks(cs, color, p, d, ray, v, e, t) <==> t <= x < e && Continues(cs, color, p, d, ray, v, e, x)
    decreases e - t
  {
    if t < e {
      var here := if Continues(cs, color, p, d, ray, v, e, t) then [t] else [];
      var rest := QueenAttacks(cs, color, p, d, ray, v, e, t + 1);
      assert x in here + rest <==> x in here || x in rest;
      QueenAttacksHas(cs, color, p, d, ray, v, e, t + 1, x);
      if x == t {
        assert x !in rest;
      }
    }
  }

  /** QueenAttacks from t keeps t itself when the queen can capture again from there, then goes on from t + 1. */
  lemma QueenAttacksStep(cs: Cells, color: int, p: Position, d: Direction, ray: seq<Position>, v: int, e: int, t: int)
    requires Ready(cs, p) && Lane(cs, color, p, d, ray, v, e) && v < t < e
    ensures QueenAttacks(cs, color, p, d, ray, v, e, t) ==
            (if Continues(cs, color, p, d, ray, v, e, t) then [t] else []) + QueenAttacks(cs, color, p, d, ray, v, e, t + 1)
  {
  }

  /** With a landing that lets the queen capture again, the diagonal lists the attacking landings. */
  lemma QueenDiagonalAttacks(cs: Cells, color: int, p: Position, d: Direction, ray: seq<Position>, v: int, e: int)
    requires Ready(cs, p) && Lane(cs, color, p, d, ray, v, e) && QueenAttacks(cs, color, p, d, ray, v, e, v + 1) != []
    ensures QueenDiagonal(cs, color, p, d, ray, v, e) == LandingsAt(p, d, ray, v, QueenAttacks(cs, color, p, d, ray, v, e, v + 1))
  {
  }

  /** Without a landing that lets the queen capture again, the diagonal lists every landing. */
  lemma QueenDiagonalQuiet(cs: Cells, color: int, p: Position, d: Direction, ray: seq<Position>, v: int, e: int)
    requires Ready(cs, p) && Lane(cs, color, p, d, ray, v, e) && QueenAttacks(cs, color, p, d, ray, v, e, v + 1) == []
    ensures QueenDiagonal(cs, color, p, d, ray, v, e) == LandingsFrom(p, d, ray, v, v + 1, e)
  {
  }

  /** Every capture listed for a diagonal lands on a square of its lane's empty run. */
  lemma QueenDiagonalLandings(cs: Cells, color: int, p: Position, d: Direction, ray: seq<Position>, v: int, e: int, i: int)
    requires Ready(cs, p) && Lane(cs, color, p, d, ray, v, e) && 0 <= i < |QueenDiagonal(cs, color, p, d, ray, v, e)|
    ensures var c := QueenDiagonal(cs, color, p, d, ray, v, e)[i];
            v < c.t < e && c == Capture(p, ray[c.t], d, v, c.t)
  {
    if QueenAttacks(cs, color, p, d, ray, v, e, v + 1) != [] {
      AttackLandings(cs, color, p, d, ray, v, e, i);
    } else {
      QuietLandings(cs, color, p, d, ray, v, e, i);
    }
  }

  /** QueenDiagonalLandings, when some landing lets the queen capture again. */
  lemma AttackLandings(cs: Cells, color: int, p: Position, d: Direction, ray: seq<Position>, v: int, e: int, i: int)
    requires Ready(cs, p) && Lane(cs, color, p, d, ray, v, e) && QueenAttacks(cs, color, p, d, ray, v, e, v + 1) != []
    requires 0 <= i < |QueenDiagonal(cs, color, p, d, ray, v, e)|
    ensures var c := QueenDiagonal(cs, color, p, d, ray, v, e)[i];
            v < c.t < e && c == Capture(p, ray[c.t], d, v, c.t)
  {
    QueenDiagonalAttacks(cs, color, p, d, ray, v, e);
  }

  /** QueenDiagonalLandings, when no landing lets the queen capture again. */
  lemma QuietLandings(cs: Cells, color: int, p: Position, d: Direction, ray: seq<Position>, v: int, e: int, i: int)
    requires Ready(cs, p) && Lane(cs, color, p, d, ray, v, e) && QueenAttacks(cs, color, p, d, ray, v, e, v + 1) == []
    requires 0 <= i < |QueenDiagonal(cs, color, p, d, ray, v, e)|
    ensures var c := QueenDiagonal(cs, color, p, d, ray, v, e)[i];
            v < c.t < e && c == Capture(p, ray[c.t], d, v, c.t)
  {
    QueenDiagonalQuiet(cs, color, p, d, ray, v, e);
  }

  /**
   * `findKillMovesForQueen` on one diagonal, when some landing u lets the
   * queen capture again: a landing is listed exactly when it does.
   */
  lemma QueenDiagonalPrefersAttack(cs: Cells, color: int, p: Position, d: Direction, ray: seq<Position>, v: int, e: int, t: int, u: int)
    requires Ready(cs, p) && Lane(cs, color, p, d, ray, v, e) && v < t < e
    requires v < u < e && Continues(cs, color, p, d, ray, v, e, u)
    ensures Capture(p, ray[t], d, v, t) in QueenDiagonal(cs, color, p, d, ray, v, e) <==> Continues(cs, color, p, d, ray, v, e, t)
  {
    var attack := QueenAttacks(cs, color, p, d, ray, v, e, v + 1);
    QueenAttacksHas(cs, color, p, d, ray, v, e, v + 1, u);
    QueenAttacksHas(cs, color, p, d, ray, v, e, v + 1, t);
    assert attack != [];
    var r := QueenDiagonal(cs, color, p, d, ray, v, e);
    QueenDiagonalAttacks(cs, color, p, d, ray, v, e);
    if Capture(p, ray[t], d, v, t) in r {
      var i :| 0 <= i < |r| && r[i] == Capture(p, ray[t], d, v, t);
      assert attack[i] == t;
    }
    if Continues(cs, color, p, d, ray, v, e, t) {
      var i :| 0 <= i < |attack| && attack[i] == t;
      assert r[i] == Capture(p, ray[t], d, v, t);
    }
  }

  /** No landing from t on lets the queen capture again: none is kept. */
  lemma {:induction false} QueenAttacksNone(cs: Cells, color: int, p: Position, d: Direction, ray: seq<Position>, v: int, e: int, t: int)
    requires Ready(cs, p) && Lane(cs, color, p, d, ray, v, e) && v < t <= e
    requires forall u :: t <= u < e ==> !Continues(cs, color, p, d, ray, v, e, u)
    ensures QueenAttacks(cs, color, p, d, ray, v, e, t) == []
    decreases e - t
  {
    if t < e {
      QueenAttacksNone(cs, color, p, d, ray, v, e, t + 1);
      assert !Continues(cs, color, p, d, ray, v, e, t);
      assert QueenAttacks(cs, color, p, d, ray, v, e, t) == [] + QueenAttacks(cs, color, p, d, ray, v, e, t + 1);
    }
  }

  /**
   * `findKillMovesForQueen` on one diagonal, when no landing lets the queen
   * capture again: every landing is listed.
   */
  lemma QueenDiagonalAll(cs: Cells, color: int, p: Position, d: Direction, ray: seq<Position>, v: int, e: int, t: int)
    requires Ready(cs, p) && Lane(cs, color, p, d, ray, v, e) && v < t < e
    requires forall u :: v < u < e ==> !Continues(cs, color, p, d, ray, v, e, u)
    ensures Capture(p, ray[t], d, v, t) in QueenDiagonal(cs, color, p, d, ray, v, e)
  {
    QueenAttacksNone(cs, color, p, d, ray, v, e, v + 1);
    QuietContains(cs, color, p, d, ray, v, e, t);
  }

  /** Without an attacking landing, the capture onto any square of the empty run is listed. */
  lemma QuietContains(cs: Cells, color: int, p: Position, d: Direction, ray: seq<Position>, v: int, e: int, t: int)
    requires Ready(cs, p) && Lane(cs, color, p, d, ray, v, e) && v < t < e
    requires QueenAttacks(cs, color, p, d, ray, v, e, v + 1) == []
    ensures Capture(p, ray[t], d, v, t) in QueenDiagonal(cs, color, p, d, ray, v, e)
  {
    QueenDiagonalQuiet(cs, color, p, d, ray, v, e);
    assert QueenDiagonal(cs, color, p, d, ray, v, e)[t - v - 1] == Capture(p, ray[t], d, v, t);
  }

  /** Every capture listed along one diagonal is a legal capture from p. */
  lemma QueenDirSound(cs: Cells, color: int, p: Position, d: Direction, i: int)
    requires Ready(cs, p) && 0 <= i < |QueenDir(cs, color, p, d)|
    ensures QueenDir(cs, color, p, d)[i].from == p && Jump(cs, color, QueenDir(cs, color, p, d)[i])
  {
    var ray := Ray(p, d);
    var v, e := FirstOccupied(cs, ray), LandingEnd(cs, ray);
    LaneOf(cs, color, ray);
    var c := QueenDiagonal(cs, color, p, d, ray, v, e)[i];
    QueenDiagonalLandings(cs, color, p, d, ray, v, e, i);
    LaneJump(cs, color, p, d, ray, v, e, c.t);
  }

  /** Every capture a queen on p is offered along the first n diagonals is a legal capture from p. */
  lemma {:induction false} QueenDirsSound(cs: Cells, color: int, p: Position, n: nat)
    requires Ready(cs, p) && n <= 4
    ensures forall c :: c in QueenDirs(cs, color, p, n) ==> c.from == p && Jump(cs, color, c)
  {
    if n > 0 {
      QueenDirsSound(cs, color, p, n - 1);
      var here := QueenDir(cs, color, p, Directions[n - 1]);
      forall i | 0 <= i < |here|
        ensures here[i].from == p && Jump(cs, color, here[i])
      {
        QueenDirSound(cs, color, p, Directions[n - 1], i);
      }
    }
  }

  /** A diagonal whose ray fails `hasVictimForQueen` offers nothing. */
  lemma QueenDirNone(cs: Cells, color: int, p: Position, d: Direction)
    requires Ready(cs, p) && !HasVictim(cs, color, Ray(p, d))
    ensures QueenDir(cs, color, p, d) == []
  {
  }

  /** A diagonal with a lane offers what QueenDiagonal lists for that lane. */
  lemma QueenDirLane(cs: Cells, color: int, p: Position, d: Direction, v: int, e: int)
    requires Ready(cs, p) && Lane(cs, color, p, d, Ray(p, d), v, e)
    ensures QueenDir(cs, color, p, d) == QueenDiagonal(cs, color, p, d, Ray(p, d), v, e)
  {
    LaneUnique(cs, color, Ray(p, d), v, e);
  }

  /** `findKillMovesForQueen` offers only legal captures from p. */
  lemma QueenJumpsSound(cs: Cells, color: int, p: Position)
    requires Ready(cs, p)
    ensures forall c :: c in QueenJumps(cs, color, p) ==> c.from == p && Jump(cs, color, c)
  {
    QueenDirsSound(cs, color, p, 4);
  }

  // ---------------------------------------------------------------------------
  // Capture chains

  /** A capture played on a clone: the clone has the same pieces, none of them a queen, so the capture is still legal. */
  lemma JumpCloned(cs: Cells, color: int, c: Capture)
    requires Jump(cs, color, c)
    ensures Jump(Cloned(cs), color, c) && NoQueens(Cloned(cs)) && Count(Cloned(cs)) == Count(cs)
  {
    ClonedDark(cs);
  }

  /**
   * ch extends the captures `done` from square p: it extends `done`, is
   * not empty, its first new capture starts on p, each later capture
   * starts where the one before it landed, and every new capture lands on a
   * square named as `Position(col, row)` names it.
   */
  predicate Extends(done: seq<Capture>, p: Position, ch: seq<Capture>)
  {
    done <= ch && ch != [] &&
    (|done| < |ch| ==> ch[|done|].from == p) &&
    (forall i :: |done| < i < |ch| ==> ch[i].from == ch[i - 1].to) &&
    (forall i :: |done| <= i < |ch| ==> Canonical(ch[i].to))
  }

  /** What `moveChecker` and `moveQueen` record when no capture is left: the captures made, if there are any. */
  function Finished(done: seq<Capture>): (r: seq<seq<Capture>>)
    ensures r == [] <==> done == []
    ensures forall ch :: ch in r ==> ch == done
  {
    if done == [] then [] else [done]
  }

  /**
   * `moveChecker(board, checker, "", chain)` for a man on p that has made the
   * captures `done`: the chains recorded, in order. With no capture left the
   * chain ends; otherwise each capture is played on a fresh clone of the
   * board.
   */
  function ManFrom(cs: Cells, color: int, p: Position, done: seq<Capture>): (r: seq<seq<Capture>>)
    requires Ready(cs, p)
    ensures r == [] <==> done == [] && ManJumps(cs, color, p, 4) == []
    decreases Count(cs), 2, 0
  {
    var moves := ManJumps(cs, color, p, 4);
    if moves == [] then Finished(done) else ManEach(cs, color, p, done, |moves|)
  }

  /** The chains recorded for the first n captures the man on p is offered. */
  function ManEach(cs: Cells, color: int, p: Position, done: seq<Capture>, n: nat): (r: seq<seq<Capture>>)
    requires Ready(cs, p) && n <= |ManJumps(cs, color, p, 4)|
    ensures n > 0 ==> r != []
    decreases Count(cs), 1, n
  {
    if n == 0 then []
    else
      var c := ManJumps(cs, color, p, 4)[n - 1];
      ManEach(cs, color, p, done, n - 1) + ManAfter(cs, color, p, c, done + [c])
  }

  /**
   * `moveChecker(board.clone(), killer, command, chain)`: `kill` on a clone
   * of cs, which holds no queen, is a man's capture; a man promoted by it
   * goes on as a queen on a clone of the board after the capture.
   */
  function ManAfter(cs: Cells, color: int, p: Position, c: Capture, done: seq<Capture>): (r: seq<seq<Capture>>)
    requires Ready(cs, p) && c in ManJumps(cs, color, p, 4)
    ensures done != [] ==> r != []
    decreases Count(cs), 0, 0
  {
    ManJumpsSound(cs, color, p, 4, c);
    JumpCloned(cs, color, c);
    var cl := Cloned(cs);
    JumpSquares(cl, color, c);
    var killer := TestQueen(cl[Index(c.from)].value, c.to.row);
    CaptureCount(cl, color, c, killer);
    var next := CaptureCells(cl, c, killer);
    if killer.queen then
      ClonedDark(next);
      QueenFrom(Cloned(next), color, c.to, done)
    else ManFrom(next, color, c.to, done)
  }

  /** `moveQueen(board, checker, "", chain)` for a queen on p that has made the captures `done`. */
  function QueenFrom(cs: Cells, color: int, p: Position, done: seq<Capture>): (r: seq<seq<Capture>>)
    requires Ready(cs, p)
    ensures r == [] <==> done == [] && QueenJumps(cs, color, p) == []
    decreases Count(cs), 2, 0
  {
    var moves := QueenJumps(cs, color, p);
    if moves == [] then Finished(done) else QueenEach(cs, color, p, done, |moves|)
  }

  /** The chains recorded for the first n captures the queen on p is offered. */
  function QueenEach(cs: Cells, color: int, p: Position, done: seq<Capture>, n: nat): (r: seq<seq<Capture>>)
    requires Ready(cs, p) && n <= |QueenJumps(cs, color, p)|
    ensures n > 0 ==> r != []
    decreases Count(cs), 1, n
  {
    if n == 0 then []
    else
      var c := QueenJumps(cs, color, p)[n - 1];
      QueenEach(cs, color, p, done, n - 1) + QueenAfter(cs, color, p, c, done + [c])
  }

  /** `moveQueen(board.clone(), killer, command, chain)`: `killByQueen` on a clone of cs, then the search goes on. */
  function QueenAfter(cs: Cells, color: int, p: Position, c: Capture, done: seq<Capture>): (r: seq<seq<Capture>>)
    requires Ready(cs, p) && c in QueenJumps(cs, color, p)
    ensures done != [] ==> r != []
    decreases Count(cs), 0, 0
  {
    QueenJumpsSound(cs, color, p);
    JumpCloned(cs, color, c);
    var cl := Cloned(cs);
    JumpSquares(cl, color, c);
    var killer := cl[Index(c.from)].value.(queen := true);
    CaptureCount(cl, color, c, killer);
    QueenFrom(CaptureCells(cl, c, killer), color, c.to, done)
  }

  /** Putting capture c from p in front: a chain that extends `done + [c]` from where c lands extends `done` from p. */
  lemma ExtendsStep(done: seq<Capture>, c: Capture, p: Position, ch: seq<Capture>)
    requires c.from == p && Canonical(c.to) && Extends(done + [c], c.to, ch)
    ensures Extends(done, p, ch)
  {
    assert ch[|done|] == (done + [c])[|done|];
  }

  /** Every chain `moveChecker` records for the man on p extends `done` from p, capture after capture. */
  lemma {:induction false} ManFromExtends(cs: Cells, color: int, p: Position, done: seq<Capture>, ch: seq<Capture>)
    requires Ready(cs, p) && (done != [] ==> done[|done| - 1].to == p)
    requires ch in ManFrom(cs, color, p, done)
    ensures Extends(done, p, ch)
    decreases Count(cs), 2, 0
  {
    var moves := ManJumps(cs, color, p, 4);
    if moves != [] {
      ManEachExtends(cs, color, p, done, |moves|, ch);
    }
  }

  lemma {:induction false} ManEachExtends(cs: Cells, color: int, p: Position, done: seq<Capture>, n: nat, ch: seq<Capture>)
    requires Ready(cs, p) && n <= |ManJumps(cs, color, p, 4)|
    requires ch in ManEach(cs, color, p, done, n)
    ensures Extends(done, p, ch)
    decreases Count(cs), 1, n
  {
    var c := ManJumps(cs, color, p, 4)[n - 1];
    if ch in ManEach(cs, color, p, done, n - 1) {
      ManEachExtends(cs, color, p, done, n - 1, ch);
    } else {
      ManStepExtends(cs, color, p, c, done, ch);
    }
  }

  lemma ManStepExtends(cs: Cells, color: int, p: Position, c: Capture, done: seq<Capture>, ch: seq<Capture>)
    requires Ready(cs, p) && c in ManJumps(cs, color, p, 4)
    requires ch in ManAfter(cs, color, p, c, done + [c])
    ensures Extends(done, p, ch)
    decreases Count(cs), 0, 1
  {
    ManAfterExtends(cs, color, p, c, done + [c], ch);
    ManJumpsSound(cs, color, p, 4, c);
    JumpSquares(cs, color, c);
    ExtendsStep(done, c, p, ch);
  }

  lemma {:induction false} ManAfterExtends(cs: Cells, color: int, p: Position, c: Capture, done: seq<Capture>, ch: seq<Capture>)
    requires Ready(cs, p) && c in ManJumps(cs, color, p, 4)
    requires ch in ManAfter(cs, color, p, c, done) && done != [] && done[|done| - 1].to == c.to
    ensures Extends(done, c.to, ch)
    decreases Count(cs), 0, 0
  {
    ManJumpsSound(cs, color, p, 4, c);
    JumpCloned(cs, color, c);
    var cl := Cloned(cs);
    JumpSquares(cl, color, c);
    var killer := TestQueen(cl[Index(c.from)].value, c.to.row);
    CaptureCount(cl, color, c, killer);
    var next := CaptureCells(cl, c, killer);
    if killer.queen {
      ClonedDark(next);
      QueenFromExtends(Cloned(next), color, c.to, done, ch);
    } else {
      ManFromExtends(next, color, c.to, done, ch);
    }
  }

  /** Every chain `moveQueen` records for the queen on p extends `done` from p, capture after capture. */
  lemma {:induction false} QueenFromExtends(cs: Cells, color: int, p: Position, done: seq<Capture>, ch: seq<Capture>)
    requires Ready(cs, p) && (done != [] ==> done[|done| - 1].to == p)
    requires ch in QueenFrom(cs, color, p, done)
    ensures Extends(done, p, ch)
    decreases Count(cs), 2, 0
  {
    var moves := QueenJumps(cs, color, p);
    if moves != [] {
      QueenEachExtends(cs, color, p, done, |moves|, ch);
    }
  }

  lemma {:induction false} QueenEachExtends(cs: Cells, color: int, p: Position, done: seq<Capture>, n: nat, ch: seq<Capture>)
    requires Ready(cs, p) && n <= |QueenJumps(cs, color, p)|
    requires ch in QueenEach(cs, color, p, done, n)
    ensures Extends(done, p, ch)
    decreases Count(cs), 1, n
  {
    var c := QueenJumps(cs, color, p)[n - 1];
    if ch in QueenEach(cs, color, p, done, n - 1) {
      QueenEachExtends(cs, color, p, done, n - 1, ch);
    } else {
      QueenStepExtends(cs, color, p, c, done, ch);
    }
  }

  lemma QueenStepExtends(cs: Cells, color: int, p: Position, c: Capture, done: seq<Capture>, ch: seq<Capture>)
    requires Ready(cs, p) && c in QueenJumps(cs, color, p)
    requires ch in QueenAfter(cs, color, p, c, done + [c])
    ensures Extends(done, p, ch)
    decreases Count(cs), 0, 1
  {
    QueenAfterExtends(cs, color, p, c, done + [c], ch);
    QueenJumpsSound(cs, color, p);
    JumpSquares(cs, color, c);
    ExtendsStep(done, c, p, ch);
  }

  lemma {:induction false} QueenAfterExtends(cs: Cells, color: int, p: Position, c: Capture, done: seq<Capture>, ch: seq<Capture>)
    requires Ready(cs, p) && c in QueenJumps(cs, color, p)
    requires ch in QueenAfter(cs, color, p, c, done) && done != [] && done[|done| - 1].to == c.to
    ensures Extends(done, c.to, ch)
    decreases Count(cs), 0, 0
  {
    QueenJumpsSound(cs, color, p);
    JumpCloned(cs, color, c);
    var cl := Cloned(cs);
    JumpSquares(cl, color, c);
    var killer := cl[Index(c.from)].value.(queen := true);
    CaptureCount(cl, color, c, killer);
    QueenFromExtends(CaptureCells(cl, c, killer), color, c.to, done, ch);
  }

  // ---------------------------------------------------------------------------
  // The captures of a whole side

  /** The listed pieces stand on their squares of a board whose pieces all stand on dark fields. */
  predicate Standing(cs: Cells, color: int, pieces: seq<Piece>)
  {
    AllDark(cs) && forall i :: 0 <= i < |pieces| ==> Ready(cs, pieces[i].at) && cs[Index(pieces[i].at)].value.color == color
  }

  /** The listed pieces of a board are standing on it. */
  lemma CheckersStanding(cs: Cells, color: int)
    requires AllDark(cs)
    ensures Standing(cs, color, CheckersFrom(cs, color, 0))
  {
  }

  /**
   * `moveChecker` from scratch for a man: its chains; none for a queen. None
   * exactly when it is a queen or has no capture to make. (A piece that does
   * not stand on a dark square of the board records nothing; every listed
   * piece does.)
   */
  function ManShare(cs: Cells, color: int, piece: Piece): (r: seq<seq<Capture>>)
    ensures r == [] <==> piece.checker.queen || !Ready(cs, piece.at) || ManJumps(cs, color, piece.at, 4) == []
  {
    if piece.checker.queen || !Ready(cs, piece.at) then [] else ManFrom(cs, color, piece.at, [])
  }

  /** `moveQueen` from scratch for a queen: its chains; none for a man. None exactly when it is a man or has no capture to make. */
  function QueenShare(cs: Cells, color: int, piece: Piece): (r: seq<seq<Capture>>)
    ensures r == [] <==> !piece.checker.queen || !Ready(cs, piece.at) || QueenJumps(cs, color, piece.at) == []
  {
    if piece.checker.queen && Ready(cs, piece.at) then QueenFrom(cs, color, piece.at, []) else []
  }

  /** What `calculateForCheckers` gathers for each listed piece, in order. */
  function MenShares(cs: Cells, color: int, pieces: seq<Piece>): (r: seq<seq<seq<Capture>>>)
    ensures |r| == |pieces|
  {
    if pieces == [] then []
    else MenShares(cs, color, pieces[..|pieces| - 1]) + [ManShare(cs, color, pieces[|pieces| - 1])]
  }

  /** The i-th entry is what the i-th piece gathers. */
  lemma {:induction false} MenSharesAt(cs: Cells, color: int, pieces: seq<Piece>, i: nat)
    requires i < |pieces|
    ensures MenShares(cs, color, pieces)[i] == ManShare(cs, color, pieces[i])
  {
    var n := |pieces| - 1;
    if i < n {
      MenSharesAt(cs, color, pieces[..n], i);
      assert pieces[..n][i] == pieces[i];
    }
  }



  /** What `calculateForQueens` gathers for each listed piece, in order. */
  function QueensShares(cs: Cells, color: int, pieces: seq<Piece>): (r: seq<seq<seq<Capture>>>)
    ensures |r| == |pieces|
  {
    if pieces == [] then []
    else QueensShares(cs, color, pieces[..|pieces| - 1]) + [QueenShare(cs, color, pieces[|pieces| - 1])]
  }

  /** The i-th entry is what the i-th piece gathers. */
  lemma {:induction false} QueensSharesAt(cs: Cells, color: int, pieces: seq<Piece>, i: nat)
    requires i < |pieces|
    ensures QueensShares(cs, color, pieces)[i] == QueenShare(cs, color, pieces[i])
  {
    var n := |pieces| - 1;
    if i < n {
      QueensSharesAt(cs, color, pieces[..n], i);
      assert pieces[..n][i] == pieces[i];
    }
  }



  /** `calculateForCheckers` over the listed pieces: their chains one after another. */
  function MenChains(cs: Cells, color: int, pieces: seq<Piece>): (r: seq<seq<Capture>>)
  {
    Flatten(MenShares(cs, color, pieces))
  }

  /** `calculateForQueens` over the listed pieces: their chains one after another. */
  function QueensChains(cs: Cells, color: int, pieces: seq<Piece>): (r: seq<seq<Capture>>)
  {
    Flatten(QueensShares(cs, color, pieces))
  }

  /** The chains `getAvailableKillSteps` collects: those of the men, then those of the queens, each in board order. */
  function KillChains(cs: Cells, color: int): (r: seq<seq<Capture>>)
    requires AllDark(cs)
  {
    MenChains(cs, color, CheckersFrom(cs, color, 0)) + QueensChains(cs, color, CheckersFrom(cs, color, 0))
  }

  /** No chain is collected exactly when no man and no queen records one. */
  lemma NoChains(cs: Cells, color: int, pieces: seq<Piece>)
    requires AllDark(cs) && pieces == CheckersFrom(cs, color, 0)
    ensures KillChains(cs, color) == [] <==>
            AllEmpty(MenShares(cs, color, pieces)) && AllEmpty(QueensShares(cs, color, pieces))
  {
    var men, queens := MenChains(cs, color, pieces), QueensChains(cs, color, pieces);
    assert KillChains(cs, color) == men + queens;
    assert |men + queens| == |men| + |queens|;
  }

  /**
   * Mandatory capture: when one of the side's pieces has a capture to make,
   * chains are collected, and `steps` are then the capture steps.
   */
  lemma MandatoryCapture(cs: Cells, color: int, pieces: seq<Piece>, i: nat)
    requires AllDark(cs) && pieces == CheckersFrom(cs, color, 0) && i < |pieces|
    requires if pieces[i].checker.queen then QueenJumps(cs, color, pieces[i].at) != []
             else ManJumps(cs, color, pieces[i].at, 4) != []
    ensures |KillChains(cs, color)| > 0
  {
    assert Ready(cs, pieces[i].at);
    if pieces[i].checker.queen {
      QueenCaptureCollected(cs, color, pieces, i);
    } else {
      ManCaptureCollected(cs, color, pieces, i);
    }
    var men, queens := MenChains(cs, color, pieces), QueensChains(cs, color, pieces);
    assert KillChains(cs, color) == men + queens;
  }

  /** A queen's chains are among those the queens record. */
  lemma QueenCaptureCollected(cs: Cells, color: int, pieces: seq<Piece>, i: nat)
    requires i < |pieces| && Ready(cs, pieces[i].at) && pieces[i].checker.queen && QueenJumps(cs, color, pieces[i].at) != []
    ensures QueensChains(cs, color, pieces) != []
  {
    QueensSharesAt(cs, color, pieces, i);
    FlattenHas(QueensShares(cs, color, pieces), i, QueenShare(cs, color, pieces[i])[0]);
  }

  /** A man's chains are among those the men record. */
  lemma ManCaptureCollected(cs: Cells, color: int, pieces: seq<Piece>, i: nat)
    requires i < |pieces| && Ready(cs, pieces[i].at) && !pieces[i].checker.queen && ManJumps(cs, color, pieces[i].at, 4) != []
    ensures MenChains(cs, color, pieces) != []
  {
    MenSharesAt(cs, color, pieces, i);
    FlattenHas(MenShares(cs, color, pieces), i, ManShare(cs, color, pieces[i])[0]);
  }

  /** Quiet moves only when no piece of the side has a capture to make. */
  lemma NoCaptureLeft(cs: Cells, color: int, pieces: seq<Piece>, i: nat)
    requires AllDark(cs) && pieces == CheckersFrom(cs, color, 0) && i < |pieces| && KillChains(cs, color) == []
    ensures if pieces[i].checker.queen then QueenJumps(cs, color, pieces[i].at) == []
            else ManJumps(cs, color, pieces[i].at, 4) == []
  {
    NoChains(cs, color, pieces);
    MenSharesAt(cs, color, pieces, i);
    QueensSharesAt(cs, color, pieces, i);
    assert MenShares(cs, color, pieces)[i] == [] && QueensShares(cs, color, pieces)[i] == [];
  }

  /**
   * ch is a chain of captures as a command list spells it: it is not empty,
   * it starts on a piece of the colour, each capture starts where the one
   * before it landed, and all its squares are named as `Position(col, row)`
   * names them.
   */
  predicate Path(cs: Cells, color: int, ch: seq<Capture>)
  {
    |cs| == 64 && ch != [] && Canonical(ch[0].from) &&
    cs[Index(ch[0].from)].Some? && cs[Index(ch[0].from)].value.color == color &&
    (forall i :: 0 < i < |ch| ==> ch[i].from == ch[i - 1].to) &&
    (forall i :: 0 <= i < |ch| ==> Canonical(ch[i].to))
  }

  /** A chain a piece of the colour records from scratch is a path. */
  lemma ExtendsPath(cs: Cells, color: int, p: Position, ch: seq<Capture>)
    requires Ready(cs, p) && cs[Index(p)].value.color == color && Extends([], p, ch)
    ensures Path(cs, color, ch)
  {
  }

  /** Every chain the men record is a path. */
  lemma MenChainsPaths(cs: Cells, color: int, pieces: seq<Piece>, ch: seq<Capture>)
    requires Standing(cs, color, pieces)
    requires ch in MenChains(cs, color, pieces)
    ensures Path(cs, color, ch)
  {
    var j := FlattenSource(MenShares(cs, color, pieces), ch);
    MenSharesAt(cs, color, pieces, j);
    var at := pieces[j].at;
    assert Ready(cs, at);
    ManFromExtends(cs, color, at, [], ch);
    ExtendsPath(cs, color, at, ch);
  }

  /** Every chain the queens record is a path. */
  lemma QueensChainsPaths(cs: Cells, color: int, pieces: seq<Piece>, ch: seq<Capture>)
    requires Standing(cs, color, pieces)
    requires ch in QueensChains(cs, color, pieces)
    ensures Path(cs, color, ch)
  {
    var j := FlattenSource(QueensShares(cs, color, pieces), ch);
    QueensSharesAt(cs, color, pieces, j);
    var at := pieces[j].at;
    assert Ready(cs, at);
    QueenFromExtends(cs, color, at, [], ch);
    ExtendsPath(cs, color, at, ch);
  }

  /** Every chain collected for the side is a path from one of its pieces. */
  lemma KillChainsPaths(cs: Cells, color: int)
    requires AllDark(cs)
    ensures forall ch :: ch in KillChains(cs, color) ==> Path(cs, color, ch)
  {
    CheckersStanding(cs, color);
    var pieces := CheckersFrom(cs, color, 0);
    forall ch | ch in KillChains(cs, color)
      ensures Path(cs, color, ch)
    {
      if ch in MenChains(cs, color, pieces) {
        MenChainsPaths(cs, color, pieces, ch);
      } else {
        QueensChainsPaths(cs, color, pieces, ch);
      }
    }
  }

  // ---------------------------------------------------------------------------
  // Step texts

  /** The commands `"$position:$nextPos"` of a chain's captures. */
  function Commands(ch: seq<Capture>): (r: seq<string>)
    ensures |r| == |ch|
    ensures forall i :: 0 <= i < |ch| ==> r[i] == CommandText(ch[i].from, ch[i].to)
  {
    seq(|ch|, i requires 0 <= i < |ch| => CommandText(ch[i].from, ch[i].to))
  }

  /**
   * The `mapIndexed … reduce` of `getAvailableKillSteps`: the first command
   * whole, then characters 2 to 4 of each later command, left to right.
   */
  function ChainText(commands: seq<string>): (s: string)
    requires |commands| >= 1 && forall i :: 0 < i < |commands| ==> |commands[i]| >= 5
  {
    if |commands| == 1 then commands[0]
    else ChainText(commands[..|commands| - 1]) + commands[|commands| - 1][2..5]
  }

  /** The names of the squares a chain visits: where it starts, then every landing square. */
  function Visited(ch: seq<Capture>): (r: seq<string>)
    requires ch != []
    ensures |r| == |ch| + 1 && r[0] == ch[0].from.text
    ensures forall i :: 0 <= i < |ch| ==> r[i + 1] == ch[i].to.text
  {
    [ch[0].from.text] + seq(|ch|, i requires 0 <= i < |ch| => ch[i].to.text)
  }

  /** The command of a capture between two named squares is five characters long, and its last three are ":" and the landing square. */
  lemma CommandTail(p: Position, q: Position)
    requires Canonical(p) && Canonical(q)
    ensures |CommandText(p, q)| == 5 && CommandText(p, q)[2..5] == ":" + q.text
  {
  }

  /** Commands linking two-letter names one to the next reduce to the names joined by ':'. */
  lemma {:induction false} ChainTextJoin(commands: seq<string>, names: seq<string>)
    requires |commands| >= 1 && |names| == |commands| + 1
    requires forall i :: 0 <= i < |names| ==> |names[i]| == 2
    requires forall i :: 0 <= i < |commands| ==> commands[i] == names[i] + ":" + names[i + 1]
    ensures forall i :: 0 < i < |commands| ==> |commands[i]| >= 5
    ensures ChainText(commands) == Join(names, ':')
    decreases |commands|
  {
    var n := |commands| - 1;
    if n == 0 {
      assert Join(names, ':') == Join(names[..1], ':') + [':'] + names[1];
    } else {
      ChainTextJoin(commands[..n], names[..n + 1]);
      assert names[..n + 1] == names[..|names| - 1];
      assert commands[n] == names[n] + ":" + names[n + 1];
      assert |names[n]| == 2 && |names[n + 1]| == 2;
      assert commands[n][2..5] == [':'] + names[n + 1];
    }
  }

  /** The text of a chain is the names of the squares it visits, joined by ':' — "c3:e5:g7". */
  lemma ChainTextVisited(cs: Cells, color: int, ch: seq<Capture>)
    requires Path(cs, color, ch)
    ensures forall i :: 0 < i < |ch| ==> |Commands(ch)[i]| >= 5
    ensures ChainText(Commands(ch)) == Join(Visited(ch), ':')
  {
    var names := Visited(ch);
    forall i | 0 <= i < |ch|
      ensures Commands(ch)[i] == names[i] + ":" + names[i + 1]
    {
      if i > 0 {
        assert ch[i].from == ch[i - 1].to;
      }
    }
    ChainTextJoin(Commands(ch), names);
  }

  /** The squares of a chain text read back, split at ':', as the squares the chain visits. */
  lemma ChainTextSquares(cs: Cells, color: int, ch: seq<Capture>)
    requires Path(cs, color, ch)
    ensures forall i :: 0 < i < |ch| ==> |Commands(ch)[i]| >= 5
    ensures Split(ChainText(Commands(ch)), ':') == Visited(ch)
  {
    ChainTextVisited(cs, color, ch);
    var names := Visited(ch);
    forall i | 0 <= i < |names|
      ensures ':' !in names[i]
    {
      if i == 0 {
        AtHasNoColon(ch[0].from.col, ch[0].from.row);
      } else {
        AtHasNoColon(ch[i - 1].to.col, ch[i - 1].to.row);
      }
    }
    SplitJoin(names, ':');
  }

  /** The text of one chain: the squares it visits joined by ':'. */
  function PathText(cs: Cells, color: int, ch: seq<Capture>): (r: string)
    requires Path(cs, color, ch)
    ensures r == Join(Visited(ch), ':')
  {
    ChainTextVisited(cs, color, ch);
    ChainText(Commands(ch))
  }

  /** The texts of the chains, in order. */
  function ChainTexts(cs: Cells, color: int, chains: seq<seq<Capture>>): (r: seq<string>)
    requires forall i :: 0 <= i < |chains| ==> Path(cs, color, chains[i])
    ensures |r| == |chains|
    ensures forall i :: 0 <= i < |chains| ==> r[i] == PathText(cs, color, chains[i])
  {
    seq(|chains|, i requires 0 <= i < |chains| => PathText(cs, color, chains[i]))
  }

  /** `getAvailableKillSteps()`: the text of every chain the side's pieces record. */
  function KillSteps(cs: Cells, color: int): (r: seq<string>)
    requires AllDark(cs)
    ensures |r| == |KillChains(cs, color)|
  {
    var chains := KillChains(cs, color);
    KillChainsPaths(cs, color);
    forall i | 0 <= i < |chains|
      ensures Path(cs, color, chains[i])
    {
      assert chains[i] in chains;
    }
    ChainTexts(cs, color, chains)
  }

  /** The i-th kill step names the squares the i-th chain visits, from the capturing piece's square on, joined by ':'. */
  lemma KillStepText(cs: Cells, color: int, i: nat)
    requires AllDark(cs) && i < |KillChains(cs, color)|
    ensures KillChains(cs, color)[i] != [] && KillSteps(cs, color)[i] == Join(Visited(KillChains(cs, color)[i]), ':')
  {
    KillChainsPaths(cs, color);
    assert KillChains(cs, color)[i] in KillChains(cs, color);
  }

  // ---------------------------------------------------------------------------
  // Quiet moves

  /** `"$position-$it"`, the text of a quiet move. */
  function MoveText(p: Position, q: Position): string
  {
    p.text + "-" + q.text
  }

  /** The directions a man moves in: NW and NE for white, SW and SE for black. */
  function Forward(color: int): seq<Direction>
  {
    if color == White then [NW, NE] else [SW, SE]
  }

  /** A man's quiet moves from p in the directions ds: to each neighbour that is on the board and empty. */
  function ManSlides(cs: Cells, p: Position, ds: seq<Direction>): (r: seq<string>)
    requires |cs| == 64 && InRange(p)
  {
    if ds == [] then []
    else
      ManSlides(cs, p, ds[..|ds| - 1]) +
      match MoveByDirection(p, ds[|ds| - 1])
      case None => []
      case Some(q) => if cs[Index(q)].None? then [MoveText(p, q)] else []
  }

  /** A man's quiet moves go exactly to the neighbours in the directions ds that are on the board and empty. */
  lemma {:induction false} ManSlidesTargets(cs: Cells, p: Position, ds: seq<Direction>)
    requires |cs| == 64 && InRange(p)
    ensures forall s :: s in ManSlides(cs, p, ds) <==>
      exists d :: d in ds && MoveByDirection(p, d).Some? && cs[Index(MoveByDirection(p, d).value)].None? &&
        s == MoveText(p, MoveByDirection(p, d).value)
  {
    if ds != [] {
      var init, d := ds[..|ds| - 1], ds[|ds| - 1];
      ManSlidesTargets(cs, p, init);
      assert ds == init + [d];
      forall s | s in ManSlides(cs, p, ds)
        ensures exists e :: (e in ds && MoveByDirection(p, e).Some? && cs[Index(MoveByDirection(p, e).value)].None? &&
                             s == MoveText(p, MoveByDirection(p, e).value))
      {
        if s !in ManSlides(cs, p, init) {
          assert d in ds;
        }
      }
      forall s | exists e :: (e in ds && MoveByDirection(p, e).Some? && cs[Index(MoveByDirection(p, e).value)].None? &&
                              s == MoveText(p, MoveByDirection(p, e).value))
        ensures s in ManSlides(cs, p, ds)
      {
        var e :| e in ds && MoveByDirection(p, e).Some? && cs[Index(MoveByDirection(p, e).value)].None? &&
          s == MoveText(p, MoveByDirection(p, e).value);
        if e != d {
          assert e in init;
        }
      }
    }
  }

  /** The rays of `getDiagonals(place)` for the directions ds: those that are not empty, in order. */
  function DiagonalsIn(p: Position, ds: seq<Direction>): (r: seq<seq<Position>>)
    requires InRange(p)
    ensures forall i :: 0 <= i < |r| ==> r[i] != [] && AllOnBoard(r[i])
  {
    if ds == [] then []
    else
      var ray := Ray(p, ds[|ds| - 1]);
      DiagonalsIn(p, ds[..|ds| - 1]) + (if ray != [] then [ray] else [])
  }

  /** `getDiagonals(place)`. */
  function Diagonals(p: Position): (r: seq<seq<Position>>)
    requires InRange(p)
  {
    DiagonalsIn(p, Directions)
  }

  /** `getDiagonals` lists exactly the rays from p that are not empty, in the order of `gameConstants.directions`. */
  lemma {:induction false} DiagonalsInRays(p: Position, ds: seq<Direction>)
    requires InRange(p)
    ensures forall row :: row in DiagonalsIn(p, ds) <==> row != [] && exists d :: d in ds && row == Ray(p, d)
  {
    if ds != [] {
      var init, d := ds[..|ds| - 1], ds[|ds| - 1];
      DiagonalsInRays(p, init);
      assert ds == init + [d];
      var ray := Ray(p, d);
      var here := if ray != [] then [ray] else [];
      assert DiagonalsIn(p, ds) == DiagonalsIn(p, init) + here;
      forall row | row in DiagonalsIn(p, ds)
        ensures row != [] && exists e :: e in ds && row == Ray(p, e)
      {
        if row !in DiagonalsIn(p, init) {
          assert row == ray;
        }
      }
      forall row | row != [] && (exists e :: e in ds && row == Ray(p, e))
        ensures row in DiagonalsIn(p, ds)
      {
        var e :| e in ds && row == Ray(p, e);
        if e != d {
          assert e in init;
        }
      }
    }
  }

  /**
   * A queen's quiet moves along one diagonal: every square when the diagonal
   * holds no piece, otherwise the squares before the first piece.
   */
  function RowSlides(cs: Cells, p: Position, row: seq<Position>): (r: seq<string>)
    requires |cs| == 64 && AllOnBoard(row)
  {
    if forall q :: q in row ==> IsEmpty(cs, q) then Map(q => MoveText(p, q), row)
    else Map(q => MoveText(p, q), TakeWhile(row, q => IsEmpty(cs, q)))
  }

  /** Both branches of `getAvailableMoveSteps` for a queen come to the same: the squares up to the first piece. */
  lemma RowSlidesUpToPiece(cs: Cells, p: Position, row: seq<Position>)
    requires |cs| == 64 && AllOnBoard(row)
    ensures var i := FirstOccupied(cs, row);
            RowSlides(cs, p, row) == Map(q => MoveText(p, q), row[..if i < 0 then |row| else i])
  {
    var i := FirstOccupied(cs, row);
    var kept := TakeWhile(row, q => IsEmpty(cs, q));
    if i < 0 {
      assert forall q :: q in row ==> IsEmpty(cs, q);
      assert row[..|row|] == row;
    } else {
      assert !IsEmpty(cs, row[i]);
      assert |kept| <= i;
      assert |kept| == i;
    }
  }

  /** A queen's quiet moves from p along the rows. */
  function RowsSlides(cs: Cells, p: Position, rows: seq<seq<Position>>): (r: seq<string>)
    requires |cs| == 64 && forall i :: 0 <= i < |rows| ==> AllOnBoard(rows[i])
  {
    if rows == [] then []
    else RowsSlides(cs, p, rows[..|rows| - 1]) + RowSlides(cs, p, rows[|rows| - 1])
  }

  /** A piece's quiet moves: a man's forward steps, or a queen's slides along its diagonals. */
  function PieceSlides(cs: Cells, piece: Piece): (r: seq<string>)
    requires |cs| == 64 && OnBoardAt(piece.at)
  {
    if piece.checker.queen then RowsSlides(cs, piece.at, Diagonals(piece.at))
    else ManSlides(cs, piece.at, Forward(piece.checker.color))
  }

  /** `getAvailableMoveSteps()` over the listed pieces, in order. */
  function SlidesOf(cs: Cells, pieces: seq<Piece>): (r: seq<string>)
    requires |cs| == 64 && forall i :: 0 <= i < |pieces| ==> OnBoardAt(pieces[i].at)
  {
    if pieces == [] then []
    else SlidesOf(cs, pieces[..|pieces| - 1]) + PieceSlides(cs, pieces[|pieces| - 1])
  }

  /** `getAvailableMoveSteps()`. */
  function MoveSteps(cs: Cells, color: int): (r: seq<string>)
    requires |cs| == 64
  {
    SlidesOf(cs, CheckersFrom(cs, color, 0))
  }

  /** `steps`: the capture steps when there are any, else the quiet moves. */
  function Steps(cs: Cells, color: int): (r: seq<string>)
    requires AllDark(cs)
    ensures r == if KillChains(cs, color) != [] then KillSteps(cs, color) else MoveSteps(cs, color)
  {
    var kills := KillSteps(cs, color);
    if kills != [] then kills else MoveSteps(cs, color)
  }
}
