// The reference engine's move generator as functions of the board: the
// geometry predicates, victim and landing selection, the multi-capture chain
// search with its killer type threaded through, and the final move list.
// The searcher object that runs these steps with loops is in move_searcher.dfy.

module MoveSearch {
  import opened Common
  import opened BoardModel

  function Abs(n: int): nat { if n < 0 then -n else n }

  function Min(a: int, b: int): int { if a <= b then a else b }

  function Max(a: int, b: int): int { if a <= b then b else a }

  /** The generator's direction of an offset: -1 when negative, +1 otherwise (zero counts as +1). */
  function Step(d: int): int { if d < 0 then -1 else 1 }

  /** The direction from coordinate a towards coordinate b used by `isCheckersBetween`. */
  function Toward(a: int, b: int): int { if a - b < 0 then 1 else -1 }

  /** The square j steps from c in direction (sx, sy). */
  function Ray(c: BoardPosition, sx: int, sy: int, j: int): BoardPosition
  {
    BoardPosition(c.x + Offset(sx, j), c.y + Offset(sy, j))
  }

  /** `d * j` for a unit direction d = 1 or d = -1. */
  function Offset(d: int, j: int): int { if d < 0 then -j else j }

  /** `getNextPosition(pos, dx, dy)`: the square at that offset, None exactly when it is off the board. */
  function NextPosition(p: BoardPosition, dx: int, dy: int): (r: Option<BoardPosition>)
    ensures r.Some? <==> OnBoard(BoardPosition(p.x + dx, p.y + dy))
    ensures r.Some? ==> r.value.x - p.x == dx && r.value.y - p.y == dy
  {
    var x := p.x + dx;
    var y := p.y + dy;
    if y < 1 || y > 8 || x < 1 || x > 8 then None else Some(BoardPosition(x, y))
  }

  predicate IsOneDiagonal(a: BoardPosition, b: BoardPosition)
  {
    Abs(a.x - b.x) == Abs(a.y - b.y)
  }

  /**
   * `isBetween(pos, a, b)`: true exactly when the three squares lie pairwise on
   * diagonals and pos.x lies between a.x and b.x inclusive.
   */
  function IsBetween(pos: BoardPosition, a: BoardPosition, b: BoardPosition): (r: bool)
    ensures r <==> IsOneDiagonal(pos, a) && IsOneDiagonal(pos, b) && IsOneDiagonal(a, b) &&
                   Min(a.x, b.x) <= pos.x <= Max(a.x, b.x)
  {
    if !IsOneDiagonal(pos, a) || !IsOneDiagonal(pos, b) || !IsOneDiagonal(a, b) then false
    else
      var dAB := Abs(b.x - a.x);
      var dA := Abs(pos.x - a.x);
      var dB := Abs(pos.x - b.x);
      dAB >= dA && dAB >= dB
  }

  /** Whether a piece of killer type kt on k reaches v: a man its diagonal neighbours, a king its diagonals. */
  predicate InReach(k: BoardPosition, v: BoardPosition, kt: int)
  {
    if kt == 0 then Abs(k.x - v.x) == 1 && Abs(k.y - v.y) == 1 else IsOneDiagonal(k, v)
  }

  /** `findVictims(victims, k)`: the candidates within reach of k, in list order. */
  function FindVictims(vs: seq<BoardPosition>, k: BoardPosition, kt: int): (r: seq<BoardPosition>)
    ensures forall v :: v in r <==> v in vs && InReach(k, v, kt)
  {
    Filter(vs, v => InReach(k, v, kt))
  }

  /**
   * `isCheckersBetween(a, b)`: walk from a towards b while both coordinates stay
   * strictly inside the two squares' ranges, and report whether a piece was met.
   */
  function IsCheckersBetween(fs: seq<BoardField>, a: BoardPosition, b: BoardPosition): bool
    requires Layout(fs)
  {
    var dx := Toward(a.x, b.x);
    var dy := Toward(a.y, b.y);
    OccupiedWithin(fs, a, dx, dy, Min(a.x, b.x) + 1, Max(a.x, b.x) - 1, Min(a.y, b.y) + 1, Max(a.y, b.y) - 1, 1)
  }

  function OccupiedWithin(fs: seq<BoardField>, a: BoardPosition, dx: int, dy: int,
                          x1: int, x2: int, y1: int, y2: int, i: int): bool
    requires Layout(fs)
    decreases 8 - i
  {
    if i >= 8 then false
    else
      var p := Ray(a, dx, dy, i);
      if !(x1 <= Abs(p.x) <= x2 && y1 <= Abs(p.y) <= y2) then false
      else Occupant(fs, p).Some? || OccupiedWithin(fs, a, dx, dy, x1, x2, y1, y2, i + 1)
  }

  /** For two squares on one diagonal, a piece lies between them iff some square strictly between is occupied. */
  lemma IsCheckersBetweenIff(fs: seq<BoardField>, a: BoardPosition, b: BoardPosition)
    requires Layout(fs) && OnBoard(a) && OnBoard(b) && IsOneDiagonal(a, b)
    ensures IsCheckersBetween(fs, a, b) <==>
      exists j :: 1 <= j < Abs(a.x - b.x) && Occupant(fs, Ray(a, Toward(a.x, b.x), Toward(a.y, b.y), j)).Some?
  {
    OccupiedWithinIff(fs, a, b, Toward(a.x, b.x), Toward(a.y, b.y), 1);
  }

  lemma {:induction false} OccupiedWithinIff(fs: seq<BoardField>, a: BoardPosition, b: BoardPosition, dx: int, dy: int, i: int)
    requires Layout(fs) && OnBoard(a) && OnBoard(b) && IsOneDiagonal(a, b)
    requires 1 <= i && (i <= Abs(a.x - b.x) || i == 1)
    requires dx == Toward(a.x, b.x) && dy == Toward(a.y, b.y)
    ensures OccupiedWithin(fs, a, dx, dy, Min(a.x, b.x) + 1, Max(a.x, b.x) - 1, Min(a.y, b.y) + 1, Max(a.y, b.y) - 1, i) <==>
      exists j :: i <= j < Abs(a.x - b.x) && Occupant(fs, Ray(a, dx, dy, j)).Some?
    decreases 8 - i
  {
    var d := Abs(a.x - b.x);
    if i < 8 && i < d {
      OccupiedWithinIff(fs, a, b, dx, dy, i + 1);
      var p := Ray(a, dx, dy, i);
      assert Min(a.x, b.x) + 1 <= Abs(p.x) <= Max(a.x, b.x) - 1;
      assert Min(a.y, b.y) + 1 <= Abs(p.y) <= Max(a.y, b.y) - 1;
      if Occupant(fs, p).None? {
        forall j | i <= j < d && Occupant(fs, Ray(a, dx, dy, j)).Some?
          ensures i + 1 <= j
        {
        }
      }
    } else if i < 8 {
      var p := Ray(a, dx, dy, i);
      assert !(Min(a.x, b.x) + 1 <= Abs(p.x) <= Max(a.x, b.x) - 1);
    }
  }

  // ---------------------------------------------------------------------------
  // The state of one piece's search

  /**
   * What the searcher holds fixed while it searches one piece: the board, the
   * mover's colour, the square the piece started on and the opposing pieces.
   */
  datatype SearchContext = SearchContext(fs: seq<BoardField>, color: int, start: BoardPosition, victims: seq<BoardPosition>)

  predicate ContextOk(ctx: SearchContext)
  {
    Layout(ctx.fs) && OnBoard(ctx.start) && forall v :: v in ctx.victims ==> OnBoard(v)
  }

  /** A step of a capture chain; `from` links back to the previous step, the root has neither from nor victim. */
  datatype Move = Move(from: Option<Move>, victim: Option<BoardPosition>, to: BoardPosition)
  {
    /** `toList()`: walk the links from this step back to the root, then reverse. */
    method ToList() returns (list: seq<BoardPosition>)
      ensures list == Path(this)
    {
      list := [to];
      var move := from;
      while move.Some?
        invariant Path(this) == PathOf(move) + Reversed(list)
        decreases DepthOf(move)
      {
        var m := move.value;
        PathUnwind(m, list);
        list := list + [m.to];
        move := m.from;
      }
      list := Reversed(list);
    }
  }

  /** The squares of an optional chain; none for a missing one. */
  function PathOf(move: Option<Move>): seq<BoardPosition>
  {
    if move.Some? then Path(move.value) else []
  }

  function DepthOf(move: Option<Move>): nat
  {
    if move.Some? then Depth(move.value) else 0
  }

  /** One turn of `toList`'s loop: moving step m's square from the path onto the reversed list. */
  lemma PathUnwind(m: Move, list: seq<BoardPosition>)
    ensures Path(m) + Reversed(list) == PathOf(m.from) + Reversed(list + [m.to])
  {
    ReversedAppend(list, m.to);
  }

  function Reversed<T>(s: seq<T>): (r: seq<T>)
    ensures |r| == |s| && forall i :: 0 <= i < |s| ==> r[i] == s[|s| - 1 - i]
  {
    if s == [] then [] else Reversed(s[1..]) + [s[0]]
  }

  lemma ReversedAppend<T>(s: seq<T>, x: T)
    ensures Reversed(s + [x]) == [x] + Reversed(s)
  {
  }

  /** The number of steps linked before this one, plus one. */
  function Depth(m: Move): nat
  {
    if m.from.None? then 1 else Depth(m.from.value) + 1
  }

  /** The squares of a chain from its root to this step. */
  function Path(m: Move): (r: seq<BoardPosition>)
    ensures |r| >= 1 && r[|r| - 1] == m.to
  {
    if m.from.None? then [m.to] else Path(m.from.value) + [m.to]
  }

  /** `getKilledInMove(move)`: the victims along the chain, latest first. */
  function Killed(m: Move): seq<BoardPosition>
  {
    (if m.victim.Some? then [m.victim.value] else []) + (if m.from.Some? then Killed(m.from.value) else [])
  }

  /** The victims of an optional chain; none for a missing one. */
  function KilledOf(move: Option<Move>): seq<BoardPosition>
  {
    if move.Some? then Killed(move.value) else []
  }

  /** One turn of `getKilledInMove`'s loop: move step m's victim, if any, onto the list. */
  lemma KilledUnwind(m: Move, killed: seq<BoardPosition>)
    ensures killed + Killed(m) == (killed + if m.victim.Some? then [m.victim.value] else []) + KilledOf(m.from)
  {
    var here: seq<BoardPosition> := if m.victim.Some? then [m.victim.value] else [];
    assert Killed(m) == here + KilledOf(m.from);
    assert killed + (here + KilledOf(m.from)) == (killed + here) + KilledOf(m.from);
  }

  /** The opposing pieces a chain has not captured yet; it shrinks with every step, which ends the search. */
  function Remaining(ctx: SearchContext, m: Move): set<BoardPosition>
  {
    set v | v in ctx.victims && v !in Killed(m)
  }

  lemma RemainingShrinks(ctx: SearchContext, m: Move, next: Move)
    requires next.from == Some(m) && next.victim.Some?
    requires next.victim.value in ctx.victims && next.victim.value !in Killed(m)
    ensures Remaining(ctx, next) < Remaining(ctx, m)
  {
    assert Killed(next) == [next.victim.value] + Killed(m);
    assert next.victim.value in Remaining(ctx, m);
  }

  // ---------------------------------------------------------------------------
  // Victims

  /** `x + if (dx < 0) dx - 1 else dx + 1`, likewise for y: the square just beyond v seen from k. */
  function After(k: BoardPosition, v: BoardPosition): (r: BoardPosition)
    ensures r == Ray(v, Step(v.x - k.x), Step(v.y - k.y), 1)
  {
    var dx := v.x - k.x;
    var dy := v.y - k.y;
    BoardPosition(k.x + (if dx < 0 then dx - 1 else dx + 1), k.y + (if dy < 0 then dy - 1 else dy + 1))
  }

  /** `x + if (dx < 0) dx + 1 else dx - 1`, likewise for y: the square just before v seen from k. */
  function Before(k: BoardPosition, v: BoardPosition): (r: BoardPosition)
    ensures r == Ray(v, Step(v.x - k.x), Step(v.y - k.y), -1)
  {
    var dx := v.x - k.x;
    var dy := v.y - k.y;
    BoardPosition(k.x + (if dx < 0 then dx + 1 else dx - 1), k.y + (if dy < 0 then dy + 1 else dy - 1))
  }

  /** The square beyond v is free (or the start square) and the square before it is k itself or free. */
  predicate Approachable(ctx: SearchContext, k: BoardPosition, v: BoardPosition)
    requires Layout(ctx.fs)
  {
    (After(k, v) == ctx.start || Occupant(ctx.fs, After(k, v)).None?) &&
    (Before(k, v) == k || Occupant(ctx.fs, Before(k, v)).None?)
  }

  /**
   * `getNearbyVictims(k, killed)`: the opposing pieces within reach of k, not
   * captured yet, with a free square beyond and nothing right before them.
   */
  function NearbyVictims(ctx: SearchContext, k: BoardPosition, killed: seq<BoardPosition>, kt: int): (r: seq<BoardPosition>)
    requires Layout(ctx.fs)
    ensures forall v :: v in r <==>
      v in ctx.victims && InReach(k, v, kt) && v !in killed && Approachable(ctx, k, v)
  {
    Filter(Filter(FindVictims(ctx.victims, k, kt), v => v !in killed), v => Approachable(ctx, k, v))
  }

  // ---------------------------------------------------------------------------
  // Landing squares

  /**
   * `findNextPositions(k, v)`: for a man the square two steps beyond k through v
   * if it is the start square or a free square of the board; for a king the
   * squares of the board beyond v, in order of distance.
   */
  function FindNextPositions(ctx: SearchContext, k: BoardPosition, v: BoardPosition, kt: int): seq<BoardPosition>
    requires Layout(ctx.fs)
  {
    var dx := v.x - k.x;
    var dy := v.y - k.y;
    if kt == 0 then
      var t := BoardPosition(k.x + 2 * dx, k.y + 2 * dy);
      if t == ctx.start then [t]
      else if !OnBoard(t) then []
      else if Occupant(ctx.fs, t).Some? then []
      else [t]
    else KingLandings(k, dx, dy, 1)
  }

  /** The king branch's loop: each turn moves the offset one square further out and keeps it if on the board. */
  function KingLandings(k: BoardPosition, dx: int, dy: int, it: int): seq<BoardPosition>
    decreases 9 - it
  {
    if it > 8 then []
    else
      var dx' := if dx < 0 then dx - 1 else dx + 1;
      var dy' := if dy < 0 then dy - 1 else dy + 1;
      var x := k.x + dx';
      var y := k.y + dy';
      (if 1 <= x <= 8 && 1 <= y <= 8 then [BoardPosition(x, y)] else []) + KingLandings(k, dx', dy', it + 1)
  }

  /** A ray that has left the board going outwards. */
  predicate Exited(c: BoardPosition, sx: int, sy: int)
  {
    (c.x < 1 && sx < 0) || (c.x > 8 && sx > 0) || (c.y < 1 && sy < 0) || (c.y > 8 && sy > 0)
  }

  lemma {:induction false} KingLandingsExited(k: BoardPosition, dx: int, dy: int, it: int)
    requires Exited(BoardPosition(k.x + dx, k.y + dy), Step(dx), Step(dy))
    ensures KingLandings(k, dx, dy, it) == []
    decreases 9 - it
  {
    if it <= 8 {
      var dx' := if dx < 0 then dx - 1 else dx + 1;
      var dy' := if dy < 0 then dy - 1 else dy + 1;
      KingLandingsExited(k, dx', dy', it + 1);
    }
  }

  /**
   * Seen from c = k + (dx, dy) on the board, the king's loop yields the squares
   * c + j(sx, sy), j = 1, 2, ..., as long as they are on the board (at most 9 - it of them).
   */
  lemma {:induction false} KingLandingsRay(k: BoardPosition, dx: int, dy: int, it: int)
    requires OnBoard(BoardPosition(k.x + dx, k.y + dy)) && it <= 9
    ensures |KingLandings(k, dx, dy, it)| <= 9 - it
    ensures forall i :: 0 <= i < |KingLandings(k, dx, dy, it)| ==>
              KingLandings(k, dx, dy, it)[i] == Ray(BoardPosition(k.x + dx, k.y + dy), Step(dx), Step(dy), i + 1) &&
              OnBoard(KingLandings(k, dx, dy, it)[i])
    ensures |KingLandings(k, dx, dy, it)| < 9 - it ==>
              !OnBoard(Ray(BoardPosition(k.x + dx, k.y + dy), Step(dx), Step(dy), |KingLandings(k, dx, dy, it)| + 1))
    decreases 9 - it
  {
    if it <= 8 {
      var dx' := if dx < 0 then dx - 1 else dx + 1;
      var dy' := if dy < 0 then dy - 1 else dy + 1;
      var c := BoardPosition(k.x + dx, k.y + dy);
      var c' := BoardPosition(k.x + dx', k.y + dy');
      assert Step(dx') == Step(dx) && Step(dy') == Step(dy);
      assert c' == Ray(c, Step(dx), Step(dy), 1);
      if OnBoard(c') {
        KingLandingsRay(k, dx', dy', it + 1);
        var rest := KingLandings(k, dx', dy', it + 1);
        var r := KingLandings(k, dx, dy, it);
        assert r == [c'] + rest;
        LandingsCons(c, c', Step(dx), Step(dy), r, rest);
        assert |r| + 1 == |rest| + 2;
      } else {
        KingLandingsExited(k, dx', dy', it + 1);
      }
    }
  }

  /** A ray seen from one square further is the same ray shifted by one. */
  lemma LandingsCons(c: BoardPosition, c': BoardPosition, sx: int, sy: int, r: seq<BoardPosition>, rest: seq<BoardPosition>)
    requires r == [c'] + rest && c' == Ray(c, sx, sy, 1) && OnBoard(c')
    requires forall i :: 0 <= i < |rest| ==> rest[i] == Ray(c', sx, sy, i + 1) && OnBoard(rest[i])
    ensures forall i :: 0 <= i < |r| ==> r[i] == Ray(c, sx, sy, i + 1) && OnBoard(r[i])
  {
    forall i | 1 <= i < |r|
      ensures r[i] == Ray(c, sx, sy, i + 1) && OnBoard(r[i])
    {
      assert r[i] == rest[i - 1] == Ray(c', sx, sy, i);
    }
  }

  /**
   * King landings are the on-board squares beyond the victim, in order of
   * distance: all of them, since the ray leaves the board within eight steps.
   */
  lemma KingLandingsBeyond(ctx: SearchContext, k: BoardPosition, v: BoardPosition, kt: int)
    requires Layout(ctx.fs) && OnBoard(v) && kt != 0
    ensures var r := FindNextPositions(ctx, k, v, kt);
            var sx := Step(v.x - k.x);
            var sy := Step(v.y - k.y);
            (forall i :: 0 <= i < |r| ==> r[i] == Ray(v, sx, sy, i + 1) && OnBoard(r[i])) &&
            !OnBoard(Ray(v, sx, sy, |r| + 1))
  {
    var sx := Step(v.x - k.x);
    var sy := Step(v.y - k.y);
    KingLandingsRay(k, v.x - k.x, v.y - k.y, 1);
    assert v == BoardPosition(k.x + (v.x - k.x), k.y + (v.y - k.y));
    var r := FindNextPositions(ctx, k, v, kt);
    if |r| == 8 {
      assert !OnBoard(Ray(v, sx, sy, 9));
    }
  }

  /**
   * A man lands only two squares from k through v, on the start square or on a
   * free square of the board.
   */
  lemma ManLandings(ctx: SearchContext, k: BoardPosition, v: BoardPosition)
    requires Layout(ctx.fs)
    ensures var r := FindNextPositions(ctx, k, v, 0);
            var t := BoardPosition(2 * v.x - k.x, 2 * v.y - k.y);
            |r| <= 1 && (r != [] ==> r[0] == t) &&
            (r != [] <==> t == ctx.start || (OnBoard(t) && Occupant(ctx.fs, t).None?))
  {
  }

  // ---------------------------------------------------------------------------
  // One capture step

  predicate AnyBetween(killed: seq<BoardPosition>, a: BoardPosition, b: BoardPosition)
  {
    exists i :: 0 <= i < |killed| && IsBetween(killed[i], a, b)
  }

  /** `board.get(t)?.checker?.color != currentColor || t == startPosition`. */
  predicate LandingOpen(ctx: SearchContext, t: BoardPosition)
    requires Layout(ctx.fs)
  {
    Occupant(ctx.fs, t).None? || Occupant(ctx.fs, t).value.color != ctx.color || t == ctx.start
  }

  /** From t another victim than v would be in reach. */
  predicate Attacks(ctx: SearchContext, t: BoardPosition, killed: seq<BoardPosition>, kt: int, v: BoardPosition)
    requires Layout(ctx.fs)
  {
    exists w :: w in NearbyVictims(ctx, t, killed, kt) && w != v
  }

  /** The open landings of capturing v from k: the landing list cut at the first square of the mover's colour. */
  function OpenLandings(ctx: SearchContext, k: BoardPosition, v: BoardPosition, kt: int): seq<BoardPosition>
    requires Layout(ctx.fs)
  {
    TakeWhile(FindNextPositions(ctx, k, v, kt), t => LandingOpen(ctx, t))
  }

  /**
   * The body of `nextMoves = nearbyVictims.mapNotNull { victim -> ... }` for one
   * victim: no step when a captured piece lies between k and v; otherwise one
   * step per open landing, restricted to landings that keep attacking when there
   * are any, and without landings past a captured piece.
   */
  function StepMoves(ctx: SearchContext, m: Move, kt: int, v: BoardPosition): (r: seq<Move>)
    requires Layout(ctx.fs)
    ensures forall n :: n in r ==> n.from == Some(m) && n.victim == Some(v)
  {
    var k := m.to;
    var killed := Killed(m);
    if AnyBetween(killed, k, v) then []
    else
      var next := OpenLandings(ctx, k, v, kt);
      if next == [] then []
      else
        var test := Filter(next, t => Attacks(ctx, t, killed, kt, v));
        var chosen := if test == [] then next else test;
        var kept := Filter(chosen, t => !AnyBetween(killed, k, t));
        seq(|kept|, i requires 0 <= i < |kept| => Move(Some(m), Some(v), kept[i]))
  }

  /** The landings of capture steps: open, not past a captured piece, and attacking when any open landing attacks. */
  lemma StepMovesLandings(ctx: SearchContext, m: Move, kt: int, v: BoardPosition, i: int)
    requires Layout(ctx.fs) && 0 <= i < |StepMoves(ctx, m, kt, v)|
    ensures var t := StepMoves(ctx, m, kt, v)[i].to;
            var open := OpenLandings(ctx, m.to, v, kt);
            !AnyBetween(Killed(m), m.to, v) &&
            t in open && !AnyBetween(Killed(m), m.to, t) &&
            ((exists u :: u in open && Attacks(ctx, u, Killed(m), kt, v)) ==> Attacks(ctx, t, Killed(m), kt, v))
  {
  }

  /** `nextMoves`: the steps for each victim in order, concatenated. */
  function NextStepMoves(ctx: SearchContext, m: Move, kt: int, nearby: seq<BoardPosition>): (r: seq<Move>)
    requires Layout(ctx.fs)
    ensures |r| == 0 <==> forall i :: 0 <= i < |nearby| ==> StepMoves(ctx, m, kt, nearby[i]) == []
  {
    if nearby == [] then []
    else StepMoves(ctx, m, kt, nearby[0]) + NextStepMoves(ctx, m, kt, nearby[1..])
  }

  /** Every step offered continues m by capturing one of the victims, as that victim's step list offers it. */
  lemma {:induction false} NextStepMovesMembers(ctx: SearchContext, m: Move, kt: int, nearby: seq<BoardPosition>)
    requires Layout(ctx.fs)
    ensures forall n :: n in NextStepMoves(ctx, m, kt, nearby) ==>
      n.from == Some(m) && n.victim.Some? && n.victim.value in nearby && n in StepMoves(ctx, m, kt, n.victim.value)
  {
    if nearby != [] {
      NextStepMovesMembers(ctx, m, kt, nearby[1..]);
      var first := StepMoves(ctx, m, kt, nearby[0]);
      forall n | n in first
        ensures n.victim == Some(nearby[0])
      {
      }
    }
  }

  // ---------------------------------------------------------------------------
  // The chain search

  /** The killer type after reaching square y: a man reaching the far row is searched as a king. */
  function KillerTypeAt(color: int, kt: int, y: int): int
  {
    if kt == 0 && PromotionRow(color, y) then 1 else kt
  }

  /** `getNearbyVictims(k, killed).filter { !isCheckersBetween(k, it) }`: the nearby victims with no piece between k and them. */
  function UnblockedVictims(ctx: SearchContext, k: BoardPosition, killed: seq<BoardPosition>, kt: int): (r: seq<BoardPosition>)
    requires Layout(ctx.fs)
    ensures forall v :: v in r <==>
              v in ctx.victims && v !in killed && InReach(k, v, kt) && Approachable(ctx, k, v) && !IsCheckersBetween(ctx.fs, k, v)
  {
    Filter(NearbyVictims(ctx, k, killed, kt), v => !IsCheckersBetween(ctx.fs, k, v))
  }

  /** `nearbyVictims` of the search loop, for the chain m. */
  function LoopVictims(ctx: SearchContext, m: Move, kt: int): (r: seq<BoardPosition>)
    requires Layout(ctx.fs)
    ensures forall v :: v in r ==> v in ctx.victims && v !in Killed(m) && InReach(m.to, v, kt) &&
                                   Approachable(ctx, m.to, v) && !IsCheckersBetween(ctx.fs, m.to, v)
  {
    UnblockedVictims(ctx, m.to, Killed(m), kt)
  }

  /**
   * `getKillerMoves(move, allMoves)`: the chains appended to `allMoves`, in
   * order, and the killer type the search leaves behind (the source keeps it in
   * a field, so a promotion found in one branch carries over to the next).
   */
  function KillerMovesFrom(ctx: SearchContext, m: Move, kt: int): (res: (seq<Move>, int))
    requires Layout(ctx.fs)
    decreases Remaining(ctx, m), 1
  {
    var kt1 := KillerTypeAt(ctx.color, kt, m.to.y);
    var nearby := LoopVictims(ctx, m, kt1);
    if nearby == [] then ([m], kt1)
    else
      var next := NextStepMoves(ctx, m, kt1, nearby);
      if next == [] then ([m], kt1)
      else
        assert forall i :: 0 <= i < |next| ==> Remaining(ctx, next[i]) < Remaining(ctx, m) by {
          NextStepMovesMembers(ctx, m, kt1, nearby);
          forall i | 0 <= i < |next|
            ensures Remaining(ctx, next[i]) < Remaining(ctx, m)
          {
            RemainingShrinks(ctx, m, next[i]);
          }
        }
        if |next| > 1 then KillerMovesEach(ctx, next, kt1, Remaining(ctx, m))
        else KillerMovesFrom(ctx, next[0], kt1)
  }

  /** `nextMoves.forEach { getKillerMoves(it, allMoves) }`: each branch searched in turn. */
  function KillerMovesEach(ctx: SearchContext, ms: seq<Move>, kt: int, bound: set<BoardPosition>): (res: (seq<Move>, int))
    requires Layout(ctx.fs)
    requires forall i :: 0 <= i < |ms| ==> Remaining(ctx, ms[i]) < bound
    decreases bound, 0, |ms|
  {
    if ms == [] then ([], kt)
    else
      var first := KillerMovesFrom(ctx, ms[0], kt);
      var rest := KillerMovesEach(ctx, ms[1..], first.1, bound);
      (first.0 + rest.0, rest.1)
  }

  /** One turn of the `forEach`: the first branch's chains, then the rest searched with the killer type it leaves. */
  lemma KillerMovesEachCons(ctx: SearchContext, ms: seq<Move>, kt: int, bound: set<BoardPosition>)
    requires Layout(ctx.fs) && ms != []
    requires forall i :: 0 <= i < |ms| ==> Remaining(ctx, ms[i]) < bound
    ensures forall i :: 0 <= i < |ms[1..]| ==> Remaining(ctx, ms[1..][i]) < bound
    ensures KillerMovesEach(ctx, ms, kt, bound) ==
              (KillerMovesFrom(ctx, ms[0], kt).0 + KillerMovesEach(ctx, ms[1..], KillerMovesFrom(ctx, ms[0], kt).1, bound).0,
               KillerMovesEach(ctx, ms[1..], KillerMovesFrom(ctx, ms[0], kt).1, bound).1)
  {
  }

  /**
   * The bookkeeping of the `forEach`: the chains collected so far, followed by
   * those the branches still to search will add, make up goal.
   */
  ghost predicate Collecting(ctx: SearchContext, rest: seq<Move>, kt: int, bound: set<BoardPosition>,
                             all: seq<Move>, goal: (seq<Move>, int))
    requires Layout(ctx.fs)
  {
    (forall i :: 0 <= i < |rest| ==> Remaining(ctx, rest[i]) < bound) &&
    all + KillerMovesEach(ctx, rest, kt, bound).0 == goal.0 &&
    KillerMovesEach(ctx, rest, kt, bound).1 == goal.1
  }

  /** One turn of the `forEach`: searching the first branch moves its chains and killer type into the collected part. */
  lemma CollectingStep(ctx: SearchContext, rest: seq<Move>, kt: int, bound: set<BoardPosition>,
                       all: seq<Move>, goal: (seq<Move>, int))
    requires Layout(ctx.fs) && rest != [] && Collecting(ctx, rest, kt, bound, all, goal)
    ensures Remaining(ctx, rest[0]) < bound
    ensures Collecting(ctx, rest[1..], KillerMovesFrom(ctx, rest[0], kt).1, bound, all + KillerMovesFrom(ctx, rest[0], kt).0, goal)
  {
    KillerMovesEachCons(ctx, rest, kt, bound);
    var first := KillerMovesFrom(ctx, rest[0], kt);
    CollectedAppend(all, first.0, KillerMovesEach(ctx, rest, kt, bound),
                    KillerMovesEach(ctx, rest[1..], first.1, bound), goal);
  }

  lemma CollectedAppend(all: seq<Move>, first: seq<Move>, each: (seq<Move>, int), later: (seq<Move>, int), goal: (seq<Move>, int))
    requires each == (first + later.0, later.1)
    requires all + each.0 == goal.0 && each.1 == goal.1
    ensures (all + first) + later.0 == goal.0 && later.1 == goal.1
  {
    assert all + (first + later.0) == (all + first) + later.0;
  }

  /** After the last branch, the collected chains and killer type are the goal. */
  lemma CollectingDone(ctx: SearchContext, kt: int, bound: set<BoardPosition>, all: seq<Move>, goal: (seq<Move>, int))
    requires Layout(ctx.fs) && Collecting(ctx, [], kt, bound, all, goal)
    ensures all == goal.0 && kt == goal.1
  {
    assert all + [] == all;
  }

  // ---------------------------------------------------------------------------
  // Well-formed chains

  /** t lies on the diagonal through v, on the far side from k (a zero offset counting as positive, as in Step). */
  predicate Beyond(k: BoardPosition, v: BoardPosition, t: BoardPosition)
  {
    IsOneDiagonal(v, t) && t != v && (t.x - v.x < 0 <==> v.x - k.x < 0) && (t.y - v.y < 0 <==> v.y - k.y < 0)
  }

  /**
   * A chain whose squares are all on the board and whose every step captures an
   * opposing piece not captured before, on a diagonal through the previous
   * square, landing beyond it.
   */
  predicate ChainOk(victims: seq<BoardPosition>, m: Move)
  {
    OnBoard(m.to) &&
    match m.from
    case None => m.victim.None?
    case Some(prev) =>
      m.victim.Some? && m.victim.value in victims && m.victim.value !in Killed(prev) &&
      IsOneDiagonal(prev.to, m.victim.value) && Beyond(prev.to, m.victim.value, m.to) &&
      ChainOk(victims, prev)
  }

  /** l is m or a chain continuing m. */
  predicate Extends(l: Move, m: Move)
  {
    l == m || (l.from.Some? && Extends(l.from.value, m))
  }

  lemma {:induction false} ExtendsDepth(l: Move, m: Move)
    requires Extends(l, m)
    ensures Depth(l) >= Depth(m) && (Depth(l) == Depth(m) ==> l == m)
  {
    if l != m {
      ExtendsDepth(l.from.value, m);
    }
  }

  /** A chain has as many squares as steps. */
  lemma {:induction false} PathLength(m: Move)
    ensures |Path(m)| == Depth(m)
  {
    if m.from.Some? {
      PathLength(m.from.value);
    }
  }

  /** A continuation's squares begin with the squares of the chain it continues. */
  lemma {:induction false} ExtendsPath(l: Move, m: Move)
    requires Extends(l, m)
    ensures |Path(m)| <= |Path(l)| && Path(l)[..|Path(m)|] == Path(m)
  {
    if l != m {
      ExtendsPath(l.from.value, m);
      assert Path(l) == Path(l.from.value) + [l.to];
    }
  }

  lemma {:induction false} ExtendsTrans(l: Move, a: Move, b: Move)
    requires Extends(l, a) && Extends(a, b)
    ensures Extends(l, b)
  {
    if l != a {
      ExtendsTrans(l.from.value, a, b);
    }
  }

  lemma RayStep(c: BoardPosition, sx: int, sy: int, j: int)
    requires (sx == 1 || sx == -1) && (sy == 1 || sy == -1) && j >= 1
    ensures var t := Ray(c, sx, sy, j);
            Abs(t.x - c.x) == j && Abs(t.y - c.y) == j && (t.x - c.x < 0 <==> sx < 0) && (t.y - c.y < 0 <==> sy < 0)
  {
  }

  /** Every landing square for a victim in reach lies on the board, beyond the victim. */
  lemma LandingBeyond(ctx: SearchContext, k: BoardPosition, v: BoardPosition, kt: int, t: BoardPosition)
    requires ContextOk(ctx) && OnBoard(v) && InReach(k, v, kt)
    requires t in FindNextPositions(ctx, k, v, kt)
    ensures OnBoard(t) && IsOneDiagonal(k, v) && Beyond(k, v, t)
  {
    var ps := FindNextPositions(ctx, k, v, kt);
    if kt == 0 {
      assert t == BoardPosition(k.x + 2 * (v.x - k.x), k.y + 2 * (v.y - k.y));
    } else {
      KingLandingsBeyond(ctx, k, v, kt);
      var j :| 0 <= j < |ps| && ps[j] == t;
      RayStep(v, Step(v.x - k.x), Step(v.y - k.y), j + 1);
    }
  }

  /** Every step offered for an eligible victim extends a well-formed chain to a well-formed chain. */
  lemma StepMovesOk(ctx: SearchContext, m: Move, kt: int, v: BoardPosition)
    requires ContextOk(ctx) && ChainOk(ctx.victims, m)
    requires v in ctx.victims && v !in Killed(m) && InReach(m.to, v, kt)
    ensures forall i :: 0 <= i < |StepMoves(ctx, m, kt, v)| ==> ChainOk(ctx.victims, StepMoves(ctx, m, kt, v)[i])
  {
    var r := StepMoves(ctx, m, kt, v);
    forall i | 0 <= i < |r|
      ensures ChainOk(ctx.victims, r[i])
    {
      StepMovesLandings(ctx, m, kt, v, i);
      LandingBeyond(ctx, m.to, v, kt, r[i].to);
    }
  }

  /** Whether the search can take a step from m: some victim in reach and some landing for it. */
  predicate CanStep(ctx: SearchContext, m: Move, kt: int)
    requires Layout(ctx.fs)
  {
    var kt1 := KillerTypeAt(ctx.color, kt, m.to.y);
    var nearby := LoopVictims(ctx, m, kt1);
    nearby != [] && NextStepMoves(ctx, m, kt1, nearby) != []
  }

  lemma NextStepMovesOk(ctx: SearchContext, m: Move, kt: int)
    requires ContextOk(ctx) && ChainOk(ctx.victims, m)
    ensures var nearby := LoopVictims(ctx, m, kt);
            var next := NextStepMoves(ctx, m, kt, nearby);
            forall n :: n in next ==> ChainOk(ctx.victims, n) && Extends(n, m) && Depth(n) == Depth(m) + 1
  {
    var nearby := LoopVictims(ctx, m, kt);
    var next := NextStepMoves(ctx, m, kt, nearby);
    NextStepMovesMembers(ctx, m, kt, nearby);
    forall n | n in next
      ensures ChainOk(ctx.victims, n) && Extends(n, m) && Depth(n) == Depth(m) + 1
    {
      StepMovesOk(ctx, m, kt, n.victim.value);
    }
  }

  /** One unfolding of the chain search: the move itself when no step is possible, otherwise the branches. */
  lemma KillerMovesFromUnfold(ctx: SearchContext, m: Move, kt: int)
    requires Layout(ctx.fs)
    ensures var kt1 := KillerTypeAt(ctx.color, kt, m.to.y);
            var next := NextStepMoves(ctx, m, kt1, LoopVictims(ctx, m, kt1));
            var res := KillerMovesFrom(ctx, m, kt);
            (!CanStep(ctx, m, kt) ==> res == ([m], kt1)) &&
            (CanStep(ctx, m, kt) ==>
               (forall i :: 0 <= i < |next| ==> Remaining(ctx, next[i]) < Remaining(ctx, m)) &&
               (|next| > 1 ==> res == KillerMovesEach(ctx, next, kt1, Remaining(ctx, m))) &&
               (|next| == 1 ==> res == KillerMovesFrom(ctx, next[0], kt1)))
  {
    var kt1 := KillerTypeAt(ctx.color, kt, m.to.y);
    var next := NextStepMoves(ctx, m, kt1, LoopVictims(ctx, m, kt1));
    NextStepMovesMembers(ctx, m, kt1, LoopVictims(ctx, m, kt1));
    forall i | 0 <= i < |next|
      ensures Remaining(ctx, next[i]) < Remaining(ctx, m)
    {
      RemainingShrinks(ctx, m, next[i]);
    }
  }

  /**
   * One turn of `getKillerMoves`'s loop from m, with killer type kt before the
   * promotion check, when there is no victim or no step: m itself is appended.
   */
  lemma SearchStops(ctx: SearchContext, m: Move, kt: int, kt1: int, nearby: seq<BoardPosition>)
    requires Layout(ctx.fs)
    requires kt1 == KillerTypeAt(ctx.color, kt, m.to.y) && nearby == UnblockedVictims(ctx, m.to, Killed(m), kt1)
    requires nearby == [] || NextStepMoves(ctx, m, kt1, nearby) == []
    ensures KillerMovesFrom(ctx, m, kt) == ([m], kt1)
  {
    KillerMovesFromUnfold(ctx, m, kt);
  }

  /** A turn with steps: each step captures a victim still on the board, so fewer remain. */
  lemma SearchSteps(ctx: SearchContext, m: Move, kt1: int, nearby: seq<BoardPosition>, next: seq<Move>)
    requires Layout(ctx.fs)
    requires nearby == UnblockedVictims(ctx, m.to, Killed(m), kt1) && next == NextStepMoves(ctx, m, kt1, nearby)
    ensures forall i :: 0 <= i < |next| ==> Remaining(ctx, next[i]) < Remaining(ctx, m)
  {
    NextStepMovesMembers(ctx, m, kt1, nearby);
    forall i | 0 <= i < |next|
      ensures Remaining(ctx, next[i]) < Remaining(ctx, m)
    {
      RemainingShrinks(ctx, m, next[i]);
    }
  }

  /** A turn with several steps: every one is searched as a branch. */
  lemma SearchBranches(ctx: SearchContext, m: Move, kt: int, kt1: int, nearby: seq<BoardPosition>, next: seq<Move>)
    requires Layout(ctx.fs)
    requires kt1 == KillerTypeAt(ctx.color, kt, m.to.y) && nearby == UnblockedVictims(ctx, m.to, Killed(m), kt1)
    requires nearby != [] && next == NextStepMoves(ctx, m, kt1, nearby) && |next| > 1
    requires forall i :: 0 <= i < |next| ==> Remaining(ctx, next[i]) < Remaining(ctx, m)
    ensures KillerMovesFrom(ctx, m, kt) == KillerMovesEach(ctx, next, kt1, Remaining(ctx, m))
  {
    KillerMovesFromUnfold(ctx, m, kt);
  }

  /** A turn with a single step: the search follows it. */
  lemma SearchFollows(ctx: SearchContext, m: Move, kt: int, kt1: int, nearby: seq<BoardPosition>, next: seq<Move>)
    requires Layout(ctx.fs)
    requires kt1 == KillerTypeAt(ctx.color, kt, m.to.y) && nearby == UnblockedVictims(ctx, m.to, Killed(m), kt1)
    requires nearby != [] && next == NextStepMoves(ctx, m, kt1, nearby) && |next| == 1
    ensures Remaining(ctx, next[0]) < Remaining(ctx, m)
    ensures KillerMovesFrom(ctx, m, kt) == KillerMovesFrom(ctx, next[0], kt1)
  {
    KillerMovesFromUnfold(ctx, m, kt);
  }

  /**
   * The chains `getKillerMoves(move, allMoves)` appends: at least one; each a
   * well-formed continuation of the move; the move itself exactly when no step
   * is possible from it, and strictly longer chains otherwise.
   */
  lemma {:induction false} KillerMovesFromOk(ctx: SearchContext, m: Move, kt: int)
    requires ContextOk(ctx) && ChainOk(ctx.victims, m)
    ensures |KillerMovesFrom(ctx, m, kt).0| >= 1 &&
            (forall l :: l in KillerMovesFrom(ctx, m, kt).0 ==> ChainOk(ctx.victims, l) && Extends(l, m)) &&
            (!CanStep(ctx, m, kt) ==> KillerMovesFrom(ctx, m, kt).0 == [m]) &&
            (CanStep(ctx, m, kt) ==> forall l :: l in KillerMovesFrom(ctx, m, kt).0 ==> Depth(l) > Depth(m))
    decreases Remaining(ctx, m), 3
  {
    KillerMovesFromUnfold(ctx, m, kt);
    if CanStep(ctx, m, kt) {
      var kt1 := KillerTypeAt(ctx.color, kt, m.to.y);
      var next := NextStepMoves(ctx, m, kt1, LoopVictims(ctx, m, kt1));
      if |next| > 1 {
        KillerMovesBranchesOk(ctx, m, kt);
      } else {
        KillerMovesSingleOk(ctx, m, kt);
      }
    } else {
      KillerMovesStuckOk(ctx, m, kt);
    }
  }

  /** No step possible from m: the search appends m itself. */
  lemma KillerMovesStuckOk(ctx: SearchContext, m: Move, kt: int)
    requires ContextOk(ctx) && ChainOk(ctx.victims, m) && !CanStep(ctx, m, kt)
    ensures KillerMovesFrom(ctx, m, kt).0 == [m] && forall l :: l in KillerMovesFrom(ctx, m, kt).0 ==> ChainOk(ctx.victims, l) && Extends(l, m)
  {
    KillerMovesFromUnfold(ctx, m, kt);
    var res := KillerMovesFrom(ctx, m, kt);
    assert forall l :: l in res.0 ==> l == m;
  }

  /** Several steps possible from m: every branch's chains continue m. */
  lemma {:induction false} KillerMovesBranchesOk(ctx: SearchContext, m: Move, kt: int)
    requires ContextOk(ctx) && ChainOk(ctx.victims, m) && CanStep(ctx, m, kt)
    requires var kt1 := KillerTypeAt(ctx.color, kt, m.to.y);
             |NextStepMoves(ctx, m, kt1, LoopVictims(ctx, m, kt1))| > 1
    ensures |KillerMovesFrom(ctx, m, kt).0| >= 1 &&
            forall l :: l in KillerMovesFrom(ctx, m, kt).0 ==> ChainOk(ctx.victims, l) && Extends(l, m) && Depth(l) > Depth(m)
    decreases Remaining(ctx, m), 2
  {
    var kt1 := KillerTypeAt(ctx.color, kt, m.to.y);
    var next := NextStepMoves(ctx, m, kt1, LoopVictims(ctx, m, kt1));
    KillerMovesFromUnfold(ctx, m, kt);
    NextStepMovesOk(ctx, m, kt1);
    KillerMovesEachOk(ctx, next, kt1, Remaining(ctx, m), m);
    assert KillerMovesFrom(ctx, m, kt) == KillerMovesEach(ctx, next, kt1, Remaining(ctx, m));
  }

  /** Exactly one step possible from m: the search goes on from it. */
  lemma {:induction false} KillerMovesSingleOk(ctx: SearchContext, m: Move, kt: int)
    requires ContextOk(ctx) && ChainOk(ctx.victims, m) && CanStep(ctx, m, kt)
    requires var kt1 := KillerTypeAt(ctx.color, kt, m.to.y);
             |NextStepMoves(ctx, m, kt1, LoopVictims(ctx, m, kt1))| == 1
    ensures |KillerMovesFrom(ctx, m, kt).0| >= 1 &&
            forall l :: l in KillerMovesFrom(ctx, m, kt).0 ==> ChainOk(ctx.victims, l) && Extends(l, m) && Depth(l) > Depth(m)
    decreases Remaining(ctx, m), 2
  {
    var kt1 := KillerTypeAt(ctx.color, kt, m.to.y);
    var next := NextStepMoves(ctx, m, kt1, LoopVictims(ctx, m, kt1));
    KillerMovesFromUnfold(ctx, m, kt);
    NextStepMovesOk(ctx, m, kt1);
    ContinuationOk(ctx, m, next[0], kt1);
  }

  /** The chains searched from a single continuation n of m are continuations of m too. */
  lemma {:induction false} ContinuationOk(ctx: SearchContext, m: Move, n: Move, kt: int)
    requires ContextOk(ctx) && ChainOk(ctx.victims, n) && Extends(n, m) && Depth(n) > Depth(m)
    ensures |KillerMovesFrom(ctx, n, kt).0| >= 1 &&
            forall l :: l in KillerMovesFrom(ctx, n, kt).0 ==> ChainOk(ctx.victims, l) && Extends(l, m) && Depth(l) > Depth(m)
    decreases Remaining(ctx, n), 4
  {
    var res := KillerMovesFrom(ctx, n, kt);
    KillerMovesFromOk(ctx, n, kt);
    forall l | l in res.0
      ensures Extends(l, m) && Depth(l) > Depth(m)
    {
      ExtendsTrans(l, n, m);
      ExtendsDepth(l, n);
    }
  }

  lemma {:induction false} KillerMovesEachOk(ctx: SearchContext, ms: seq<Move>, kt: int, bound: set<BoardPosition>, root: Move)
    requires ContextOk(ctx)
    requires forall i :: 0 <= i < |ms| ==> Remaining(ctx, ms[i]) < bound
    requires forall l :: l in ms ==> ChainOk(ctx.victims, l) && Extends(l, root) && Depth(l) > Depth(root)
    ensures |KillerMovesEach(ctx, ms, kt, bound).0| >= |ms| &&
            forall l :: l in KillerMovesEach(ctx, ms, kt, bound).0 ==> ChainOk(ctx.victims, l) && Extends(l, root) && Depth(l) > Depth(root)
    decreases bound, 0, |ms|
  {
    if ms != [] {
      var first := KillerMovesFrom(ctx, ms[0], kt);
      KillerMovesFromOk(ctx, ms[0], kt);
      KillerMovesEachOk(ctx, ms[1..], first.1, bound, root);
      var res := KillerMovesEach(ctx, ms, kt, bound);
      var rest := KillerMovesEach(ctx, ms[1..], first.1, bound);
      assert res.0 == first.0 + rest.0;
      forall l | l in first.0
        ensures Extends(l, root) && Depth(l) > Depth(root)
      {
        ExtendsTrans(l, ms[0], root);
        ExtendsDepth(l, ms[0]);
      }
    }
  }

  /**
   * The search stops only where no step is possible: from every chain it
   * appends, no step is possible with the killer type it was searched with,
   * or none as a king. The killer type only ever changes from man to king, and
   * does so when the move ends on the mover's far row.
   */
  lemma {:induction false} KillerMovesFromStops(ctx: SearchContext, m: Move, kt: int)
    requires Layout(ctx.fs)
    ensures (forall l :: l in KillerMovesFrom(ctx, m, kt).0 ==> !CanStep(ctx, l, kt) || !CanStep(ctx, l, 1)) &&
            (KillerMovesFrom(ctx, m, kt).1 == kt || (kt == 0 && KillerMovesFrom(ctx, m, kt).1 == 1)) &&
            (kt == 0 && PromotionRow(ctx.color, m.to.y) ==> KillerMovesFrom(ctx, m, kt).1 == 1)
    decreases Remaining(ctx, m), 1
  {
    var kt1 := KillerTypeAt(ctx.color, kt, m.to.y);
    var next := NextStepMoves(ctx, m, kt1, LoopVictims(ctx, m, kt1));
    KillerMovesFromUnfold(ctx, m, kt);
    if CanStep(ctx, m, kt) {
      if |next| > 1 {
        KillerMovesEachStops(ctx, next, kt1, Remaining(ctx, m));
      } else {
        KillerMovesFromStops(ctx, next[0], kt1);
      }
    }
  }

  lemma {:induction false} KillerMovesEachStops(ctx: SearchContext, ms: seq<Move>, kt: int, bound: set<BoardPosition>)
    requires Layout(ctx.fs)
    requires forall i :: 0 <= i < |ms| ==> Remaining(ctx, ms[i]) < bound
    ensures (forall l :: l in KillerMovesEach(ctx, ms, kt, bound).0 ==> !CanStep(ctx, l, kt) || !CanStep(ctx, l, 1)) &&
            (KillerMovesEach(ctx, ms, kt, bound).1 == kt || (kt == 0 && KillerMovesEach(ctx, ms, kt, bound).1 == 1))
    decreases bound, 0, |ms|
  {
    if ms != [] {
      var first := KillerMovesFrom(ctx, ms[0], kt);
      KillerMovesFromStops(ctx, ms[0], kt);
      KillerMovesEachStops(ctx, ms[1..], first.1, bound);
      var res := KillerMovesEach(ctx, ms, kt, bound);
      var rest := KillerMovesEach(ctx, ms[1..], first.1, bound);
      assert res.0 == first.0 + rest.0;
    }
  }

  /** The squares of a well-formed chain: one more than its captures, all on the board. */
  lemma {:induction false} ChainPath(victims: seq<BoardPosition>, m: Move)
    requires ChainOk(victims, m)
    ensures |Path(m)| == |Killed(m)| + 1
    ensures forall i :: 0 <= i < |Path(m)| ==> OnBoard(Path(m)[i])
  {
    if m.from.Some? {
      var prev := m.from.value;
      ChainPath(victims, prev);
      assert Path(m) == Path(prev) + [m.to];
    }
  }

  /** The captures of a well-formed chain are distinct opposing pieces. */
  lemma {:induction false} ChainVictims(victims: seq<BoardPosition>, m: Move)
    requires ChainOk(victims, m)
    ensures forall i :: 0 <= i < |Killed(m)| ==> Killed(m)[i] in victims
    ensures forall i, j :: 0 <= i < j < |Killed(m)| ==> Killed(m)[i] != Killed(m)[j]
  {
    if m.from.Some? {
      var prev := m.from.value;
      ChainVictims(victims, prev);
      assert Killed(m) == [m.victim.value] + Killed(prev);
    }
  }

  /** The captures of a chain in the order they were made, root first. */
  function Captured(m: Move): (r: seq<BoardPosition>)
    ensures |r| < Depth(m)
  {
    match m.from
    case None => []
    case Some(prev) => Captured(prev) + (if m.victim.Some? then [m.victim.value] else [])
  }

  /** `getKilledInMove` lists the captures of a well-formed chain latest first: the chain order reversed. */
  lemma {:induction false} KilledIsCapturedReversed(victims: seq<BoardPosition>, m: Move)
    requires ChainOk(victims, m)
    ensures Killed(m) == Reversed(Captured(m))
  {
    if m.from.Some? {
      var prev := m.from.value;
      KilledIsCapturedReversed(victims, prev);
      ReversedAppend(Captured(prev), m.victim.value);
    }
  }

  /**
   * The i-th capture of a well-formed chain is on a diagonal through the i-th
   * square, and the next square lies beyond it.
   */
  lemma {:induction false} ChainSteps(victims: seq<BoardPosition>, m: Move)
    requires ChainOk(victims, m)
    ensures |Path(m)| == |Captured(m)| + 1
    ensures forall i :: 0 <= i < |Captured(m)| ==>
      IsOneDiagonal(Path(m)[i], Captured(m)[i]) && Beyond(Path(m)[i], Captured(m)[i], Path(m)[i + 1])
  {
    ChainPath(victims, m);
    KilledIsCapturedReversed(victims, m);
    if m.from.Some? {
      var prev := m.from.value;
      ChainSteps(victims, prev);
      var p, q := Path(m), Path(prev);
      var C, D := Captured(m), Captured(prev);
      assert p == q + [m.to];
      assert C == D + [m.victim.value];
      forall i | 0 <= i < |C|
        ensures IsOneDiagonal(p[i], C[i]) && Beyond(p[i], C[i], p[i + 1])
      {
        if i < |D| {
          assert C[i] == D[i] && p[i] == q[i] && p[i + 1] == q[i + 1];
        } else {
          assert p[i] == q[|q| - 1] == prev.to;
        }
      }
    }
  }
}
