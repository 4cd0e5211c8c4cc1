/**
 * The game front end of the reference engine: a board, the colour to move,
 * the text commands "from-to" (a slide) and "p0:p1:...:pn" (a capture chain),
 * crowning by hand, and the list of moves for the colour to move.
 */
module Rules {
  import opened Common
  import opened BoardModel
  import opened MoveList
  import opened Searcher

  // ---------------------------------------------------------------------------
  // Starting position

  /** The squares of the twelve white men of a new game. */
  function WhiteStart(): seq<string>
  {
    ["a1", "c1", "e1", "g1", "b2", "d2", "f2", "h2", "a3", "c3", "e3", "g3"]
  }

  /** The squares of the twelve black men of a new game. */
  function BlackStart(): seq<string>
  {
    ["b8", "d8", "f8", "h8", "a7", "c7", "e7", "g7", "b6", "d6", "f6", "h6"]
  }

  /** `board.place(name, c)`: None where the name does not parse or leaves the board (the source throws). */
  function PlaceNamed(fs: seq<BoardField>, name: string, c: Option<BoardChecker>): (r: Option<seq<BoardField>>)
    requires Layout(fs)
    ensures r.Some? <==> ParsePosition(name).Some? && OnBoard(ParsePosition(name).value)
    ensures r.Some? ==> Layout(r.value)
  {
    match ParsePosition(name)
    case None => None
    case Some(p) => PlaceSpec(fs, p, c)
  }

  /** A name that the board accepts: it parses to an on-board square. */
  predicate Placeable(name: string)
  {
    ParsePosition(name).Some? && OnBoard(ParsePosition(name).value)
  }

  /** One `forEach { board.place(it, BoardChecker(color)) }`: a new man of that colour on each named square in turn. */
  function PlaceAll(fs: seq<BoardField>, names: seq<string>, color: int): (r: Option<seq<BoardField>>)
    requires Layout(fs)
    ensures r.Some? ==> Layout(r.value)
    decreases |names|
  {
    if names == [] then Some(fs)
    else
      match PlaceNamed(fs, names[0], Some(BoardChecker(color, 0)))
      case None => None
      case Some(gs) => PlaceAll(gs, names[1..], color)
  }

  /**
   * Placing men succeeds exactly when every name is placeable; then the named
   * squares hold a man of that colour (a king on its far row) and every other
   * square keeps its piece.
   */
  lemma {:induction false} PlaceAllOccupant(fs: seq<BoardField>, names: seq<string>, color: int)
    requires Layout(fs)
    ensures PlaceAll(fs, names, color).Some? <==> forall i :: 0 <= i < |names| ==> Placeable(names[i])
    ensures PlaceAll(fs, names, color).Some? ==> forall q ::
      Occupant(PlaceAll(fs, names, color).value, q) ==
        if exists i :: 0 <= i < |names| && ParsePosition(names[i]) == Some(q)
        then Promoted(Some(BoardChecker(color, 0)), q.y)
        else Occupant(fs, q)
    decreases |names|
  {
    if names != [] {
      var rest := names[1..];
      assert forall i :: 0 <= i < |rest| ==> rest[i] == names[i + 1];
      var first := PlaceNamed(fs, names[0], Some(BoardChecker(color, 0)));
      if first.Some? {
        PlaceAllOccupant(first.value, rest, color);
        if PlaceAll(fs, names, color).Some? {
          forall q
            ensures Occupant(PlaceAll(fs, names, color).value, q) ==
              if exists i :: 0 <= i < |names| && ParsePosition(names[i]) == Some(q)
              then Promoted(Some(BoardChecker(color, 0)), q.y)
              else Occupant(fs, q)
          {
            if exists i :: 0 <= i < |names| && ParsePosition(names[i]) == Some(q) {
              var i :| 0 <= i < |names| && ParsePosition(names[i]) == Some(q);
              if i > 0 {
                assert ParsePosition(rest[i - 1]) == Some(q);
              }
            }
          }
        }
      }
    }
  }

  /** `init(white, black)`: clear the board, then place the white men, then the black men. */
  function InitSpec(white: seq<string>, black: seq<string>): (r: Option<seq<BoardField>>)
    ensures r.Some? ==> Layout(r.value)
  {
    match PlaceAll(EmptyFields(), white, 0)
    case None => None
    case Some(gs) => PlaceAll(gs, black, 1)
  }

  /** A dark square, as the men stand: x + y even. */
  predicate Dark(q: BoardPosition) { (q.x + q.y) % 2 == 0 }

  lemma WhiteStartSquares(q: BoardPosition)
    ensures forall i :: 0 <= i < 12 ==> Placeable(WhiteStart()[i])
    ensures (exists i :: 0 <= i < 12 && ParsePosition(WhiteStart()[i]) == Some(q)) <==>
              OnBoard(q) && Dark(q) && q.y <= 3
  {
    var ps := [BoardPosition(1, 1), BoardPosition(3, 1), BoardPosition(5, 1), BoardPosition(7, 1),
               BoardPosition(2, 2), BoardPosition(4, 2), BoardPosition(6, 2), BoardPosition(8, 2),
               BoardPosition(1, 3), BoardPosition(3, 3), BoardPosition(5, 3), BoardPosition(7, 3)];
    assert forall i :: 0 <= i < 12 ==> ParsePosition(WhiteStart()[i]) == Some(ps[i]);
    if OnBoard(q) && Dark(q) && q.y <= 3 {
      assert q in ps;
    }
  }

  lemma BlackStartSquares(q: BoardPosition)
    ensures forall i :: 0 <= i < 12 ==> Placeable(BlackStart()[i])
    ensures (exists i :: 0 <= i < 12 && ParsePosition(BlackStart()[i]) == Some(q)) <==>
              OnBoard(q) && Dark(q) && q.y >= 6
  {
    var ps := [BoardPosition(2, 8), BoardPosition(4, 8), BoardPosition(6, 8), BoardPosition(8, 8),
               BoardPosition(1, 7), BoardPosition(3, 7), BoardPosition(5, 7), BoardPosition(7, 7),
               BoardPosition(2, 6), BoardPosition(4, 6), BoardPosition(6, 6), BoardPosition(8, 6)];
    assert forall i :: 0 <= i < 12 ==> ParsePosition(BlackStart()[i]) == Some(ps[i]);
    if OnBoard(q) && Dark(q) && q.y >= 6 {
      assert q in ps;
    }
  }

  /** Both starting lists can be placed on an empty board. */
  lemma StartPlaceable()
    ensures InitSpec(WhiteStart(), BlackStart()).Some?
  {
    WhiteStartSquares(BoardPosition(1, 1));
    BlackStartSquares(BoardPosition(1, 1));
    PlaceAllOccupant(EmptyFields(), WhiteStart(), 0);
    PlaceAllOccupant(PlaceAll(EmptyFields(), WhiteStart(), 0).value, BlackStart(), 1);
  }

  /**
   * A new game: twelve white men on the dark squares of ranks 1 to 3, twelve
   * black men on the dark squares of ranks 6 to 8, and nothing else.
   */
  lemma InitialPosition(q: BoardPosition)
    ensures InitSpec(WhiteStart(), BlackStart()).Some?
    ensures Occupant(InitSpec(WhiteStart(), BlackStart()).value, q) ==
      if OnBoard(q) && Dark(q) && q.y <= 3 then Some(BoardChecker(0, 0))
      else if OnBoard(q) && Dark(q) && q.y >= 6 then Some(BoardChecker(1, 0))
      else None
  {
    WhiteStartSquares(q);
    BlackStartSquares(q);
    PlaceAllOccupant(EmptyFields(), WhiteStart(), 0);
    var gs := PlaceAll(EmptyFields(), WhiteStart(), 0).value;
    PlaceAllOccupant(gs, BlackStart(), 1);
  }

  // ---------------------------------------------------------------------------
  // Commands

  /** `[a-z]\d` at position i. */
  predicate SquareToken(s: string, i: nat)
    requires i + 2 <= |s|
  {
    'a' <= s[i] <= 'z' && IsDigit(s[i + 1])
  }

  /** The characters `.` does not match in a Java regular expression. */
  predicate LineTerminator(c: char)
  {
    c == '\n' || c == '\r' || c == '\U{0085}' || c == '\U{2028}' || c == '\U{2029}'
  }

  predicate LineFree(s: string)
  {
    forall i :: 0 <= i < |s| ==> !LineTerminator(s[i])
  }

  /** The whole command matches `([a-z]\d)-([a-z]\d)`. */
  predicate MoveCommand(s: string)
  {
    |s| == 5 && SquareToken(s, 0) && s[2] == '-' && SquareToken(s, 3)
  }

  /** The whole command matches `([a-z]\d):([a-z]\d).*`. */
  predicate KillCommand(s: string)
  {
    |s| >= 5 && SquareToken(s, 0) && s[2] == ':' && SquareToken(s, 3) && LineFree(s[5..])
  }

  /**
   * The private `kill(from, to)`: take the piece on `from` (none when the
   * square is empty or off the board), clear the rectangle from..to with
   * `board.remove`, then place that piece on `to`. None where the source throws.
   */
  function KillSpec(fs: seq<BoardField>, from: string, to: string): (r: Option<seq<BoardField>>)
    requires Layout(fs)
    ensures r.Some? ==> Layout(r.value)
  {
    match ParsePosition(from)
    case None => None
    case Some(f) => ClearThenPlace(fs, from, to, Occupant(fs, f))
  }

  /** `board.remove(from, to)` followed by `board.place(to, c)`. */
  function ClearThenPlace(fs: seq<BoardField>, from: string, to: string, c: Option<BoardChecker>): (r: Option<seq<BoardField>>)
    requires Layout(fs)
    ensures r.Some? <==> Placeable(from) && Placeable(to)
    ensures r.Some? ==> Layout(r.value)
  {
    match RemoveSpec(fs, from, to)
    case None => None
    case Some(gs) => PlaceNamed(gs, to, c)
  }

  /** A kill fails exactly when one of the two names does not parse or leaves the board. */
  lemma KillFails(fs: seq<BoardField>, from: string, to: string)
    requires Layout(fs)
    ensures KillSpec(fs, from, to).None? <==> !Placeable(from) || !Placeable(to)
  {
  }

  /**
   * A kill between two on-board squares: the piece arrives on `to` (promoted on
   * its far row), every other square of the rectangle from..to is emptied and
   * the squares outside it keep their pieces.
   */
  lemma KillEffect(fs: seq<BoardField>, from: string, to: string, f: BoardPosition, t: BoardPosition)
    requires Layout(fs) && ParsePosition(from) == Some(f) && ParsePosition(to) == Some(t)
    requires OnBoard(f) && OnBoard(t)
    ensures KillSpec(fs, from, to).Some?
    ensures Occupant(KillSpec(fs, from, to).value, t) == Promoted(Occupant(fs, f), t.y)
    ensures forall q :: OnBoard(q) && q != t ==>
      Occupant(KillSpec(fs, from, to).value, q) == if InRect(q, f, t) then None else Occupant(fs, q)
  {
    forall q | OnBoard(q) && q != t
      ensures Occupant(KillSpec(fs, from, to).value, q) == if InRect(q, f, t) then None else Occupant(fs, q)
    {
      ClearRectOccupant(fs, f, t, q);
    }
  }

  /** Two different squares on one diagonal. */
  predicate Diagonal(a: BoardPosition, b: BoardPosition)
  {
    a != b && (b.x - a.x == b.y - a.y || b.x - a.x == a.y - b.y)
  }

  /**
   * A kill along a diagonal also empties the corner of its rectangle that lies
   * off the diagonal: the square in the column of `from` and the row of `to`,
   * whatever stood there.
   */
  lemma KillClearsCorner(fs: seq<BoardField>, from: string, to: string, f: BoardPosition, t: BoardPosition)
    requires Layout(fs) && ParsePosition(from) == Some(f) && ParsePosition(to) == Some(t)
    requires OnBoard(f) && OnBoard(t) && Diagonal(f, t)
    ensures !OnSegment(BoardPosition(f.x, t.y), f, t)
    ensures Occupant(KillSpec(fs, from, to).value, BoardPosition(f.x, t.y)) == None
  {
    KillEffect(fs, from, to, f, t);
  }

  /** The capture "g5:e7" empties g7, which lies off its diagonal, on every board. */
  lemma KillG5E7ClearsG7(fs: seq<BoardField>)
    requires Layout(fs)
    ensures Occupant(KillSpec(fs, "g5", "e7").value, BoardPosition(7, 7)) == None
  {
    KillClearsCorner(fs, "g5", "e7", BoardPosition(7, 5), BoardPosition(5, 7));
  }

  /**
   * The kill as the documentation of `remove` describes it: take the piece on
   * `from`, empty only the diagonal from..to, then place the piece on `to`.
   */
  function KillAlongDiagonal(fs: seq<BoardField>, from: string, to: string): (r: Option<seq<BoardField>>)
    requires Layout(fs)
    ensures r.Some? <==> Placeable(from) && Placeable(to)
    ensures r.Some? ==> Layout(r.value)
  {
    match ParsePosition(from)
    case None => None
    case Some(f) => ClearDiagonalThenPlace(fs, f, to, Occupant(fs, f))
  }

  /** The diagonal from f to the square `to` names emptied, then `c` placed there; None when a square is off the board. */
  function ClearDiagonalThenPlace(fs: seq<BoardField>, f: BoardPosition, to: string, c: Option<BoardChecker>): (r: Option<seq<BoardField>>)
    requires Layout(fs)
    ensures r.Some? <==> OnBoard(f) && Placeable(to)
    ensures r.Some? ==> Layout(r.value)
  {
    match ParsePosition(to)
    case None => None
    case Some(t) =>
      match ClearSegment(fs, f, t)
      case None => None
      case Some(gs) => PlaceSpec(gs, t, c)
  }

  /**
   * The diagonal kill between two on-board squares: the piece arrives on `to`
   * (promoted on its far row), the other squares of the diagonal from..to are
   * emptied and every other square, in the rectangle or not, keeps its piece.
   */
  lemma KillAlongDiagonalEffect(fs: seq<BoardField>, from: string, to: string, f: BoardPosition, t: BoardPosition)
    requires Layout(fs) && ParsePosition(from) == Some(f) && ParsePosition(to) == Some(t)
    requires OnBoard(f) && OnBoard(t)
    ensures KillAlongDiagonal(fs, from, to).Some?
    ensures Occupant(KillAlongDiagonal(fs, from, to).value, t) == Promoted(Occupant(fs, f), t.y)
    ensures forall q :: OnBoard(q) && q != t ==>
      Occupant(KillAlongDiagonal(fs, from, to).value, q) == if OnSegment(q, f, t) then None else Occupant(fs, q)
  {
    forall q | OnBoard(q) && q != t
      ensures Occupant(KillAlongDiagonal(fs, from, to).value, q) == if OnSegment(q, f, t) then None else Occupant(fs, q)
    {
      ClearSegmentOccupant(fs, f, t, q);
    }
  }

  /** The diagonal kill "g5:e7" leaves g7 as it was. */
  lemma KillAlongDiagonalKeepsG7(fs: seq<BoardField>)
    requires Layout(fs)
    ensures Occupant(KillAlongDiagonal(fs, "g5", "e7").value, BoardPosition(7, 7)) == Occupant(fs, BoardPosition(7, 7))
  {
    KillAlongDiagonalEffect(fs, "g5", "e7", BoardPosition(7, 5), BoardPosition(5, 7));
  }

  /** The kills of `go`: `kill(positions[i-1], positions[i])` for i = 1 .. |positions| - 1, stopping at the first failure. */
  function KillChain(fs: seq<BoardField>, positions: seq<string>): (r: Option<seq<BoardField>>)
    requires Layout(fs)
    ensures r.Some? ==> Layout(r.value)
    decreases |positions|
  {
    if |positions| <= 1 then Some(fs)
    else
      match KillSpec(fs, positions[0], positions[1])
      case None => None
      case Some(gs) => KillChain(gs, positions[1..])
  }

  /** A chain of placeable names never fails. */
  lemma {:induction false} KillChainPlaceable(fs: seq<BoardField>, positions: seq<string>)
    requires Layout(fs)
    requires forall i :: 0 <= i < |positions| ==> Placeable(positions[i])
    ensures KillChain(fs, positions).Some?
    decreases |positions|
  {
    if |positions| > 1 {
      KillFails(fs, positions[0], positions[1]);
      var rest := positions[1..];
      assert forall i :: 0 <= i < |rest| ==> rest[i] == positions[i + 1];
      KillChainPlaceable(KillSpec(fs, positions[0], positions[1]).value, rest);
    }
  }

  /**
   * `go(command)`: a slide command moves one piece; a capture command is split
   * at ':' and each consecutive pair is a kill; any other command changes
   * nothing. None where the source throws.
   */
  function GoSpec(fs: seq<BoardField>, command: string): (r: Option<seq<BoardField>>)
    requires Layout(fs)
    ensures r.Some? ==> Layout(r.value)
    ensures !MoveCommand(command) && !KillCommand(command) ==> r == Some(fs)
  {
    if MoveCommand(command) then MoveSpec(fs, command[..2], command[3..])
    else if KillCommand(command) then KillChain(fs, Split(command, ':'))
    else Some(fs)
  }

  /** `queen(pos)`: the piece on pos becomes a king; an empty or off-board square is left alone. None where the name does not parse. */
  function QueenSpec(fs: seq<BoardField>, pos: string): (r: Option<seq<BoardField>>)
    requires Layout(fs)
    ensures r.Some? ==> Layout(r.value)
  {
    match ParsePosition(pos)
    case None => None
    case Some(p) =>
      if OnBoard(p) && Occupant(fs, p).Some? then Some(Put(fs, p, Some(Occupant(fs, p).value.(kind := 1))))
      else Some(fs)
  }

  /** Crowning keeps the colour of the piece, sets its kind to king and touches no other square. */
  lemma QueenCrowns(fs: seq<BoardField>, pos: string, q: BoardPosition)
    requires Layout(fs)
    ensures QueenSpec(fs, pos).Some? <==> ParsePosition(pos).Some?
    ensures QueenSpec(fs, pos).Some? ==>
      Occupant(QueenSpec(fs, pos).value, q) ==
        if Some(q) == ParsePosition(pos) && Occupant(fs, q).Some?
        then Some(BoardChecker(Occupant(fs, q).value.color, 1))
        else Occupant(fs, q)
  {
  }

  // ---------------------------------------------------------------------------
  // Moves written by nextMoves are commands go accepts

  lemma {:induction false} JoinLineFree(parts: seq<string>, sep: char)
    requires |parts| >= 1 && !LineTerminator(sep)
    requires forall i :: 0 <= i < |parts| ==> LineFree(parts[i])
    ensures LineFree(Join(parts, sep))
    decreases |parts|
  {
    if |parts| > 1 {
      JoinLineFree(parts[..|parts| - 1], sep);
    }
  }

  /** A joined list begins with its first part. */
  lemma {:induction false} JoinStarts(parts: seq<string>, sep: char)
    requires |parts| >= 1
    ensures |Join(parts, sep)| >= |parts[0]| && Join(parts, sep)[..|parts[0]|] == parts[0]
    decreases |parts|
  {
    if |parts| > 1 {
      JoinStarts(parts[..|parts| - 1], sep);
    }
  }

  /** A two-character square name that parses is a `[a-z]\d` token without line breaks. */
  lemma NameToken(s: string)
    requires |s| == 2 && ParsePosition(s).Some?
    ensures SquareToken(s, 0) && LineFree(s)
  {
  }

  /** Joining two or more square names with ':' gives a kill command that splits back into those names. */
  lemma JoinedNamesCommand(ts: seq<string>)
    requires |ts| >= 2
    requires forall i :: 0 <= i < |ts| ==> |ts[i]| == 2 && ParsePosition(ts[i]).Some? && ':' !in ts[i]
    ensures KillCommand(Join(ts, ':')) && !MoveCommand(Join(ts, ':'))
    ensures Split(Join(ts, ':'), ':') == ts
  {
    SplitJoin(ts, ':');
    forall i | 0 <= i < |ts|
      ensures LineFree(ts[i])
    {
      NameToken(ts[i]);
    }
    JoinLineFree(ts, ':');
    NameToken(ts[0]);
    NameToken(ts[1]);
    JoinCons(ts[0], ts[1..], ':');
    assert [ts[0]] + ts[1..] == ts;
    JoinStarts(ts[1..], ':');
    var s := Join(ts, ':');
    assert s[..2] == ts[0] && s[2] == ':' && s[3..5] == ts[1];
  }

  /** A capture string of a path of two or more squares is a kill command whose parts name the path. */
  lemma CaptureTextCommand(path: seq<BoardPosition>)
    requires PathOk(path) && |path| >= 2
    ensures KillCommand(CaptureText(path)) && !MoveCommand(CaptureText(path))
    ensures Split(CaptureText(path), ':') == Texts(path)
  {
    TextsHaveNoSeparator(path);
    JoinedNamesCommand(Texts(path));
  }

  /** A capture string makes `go` perform the kills along its path, which never fail. */
  lemma CaptureAccepted(fs: seq<BoardField>, path: seq<BoardPosition>)
    requires Layout(fs) && PathOk(path) && |path| >= 2
    ensures GoSpec(fs, CaptureText(path)) == KillChain(fs, Texts(path))
    ensures GoSpec(fs, CaptureText(path)).Some?
  {
    CaptureTextCommand(path);
    KillChainPlaceable(fs, Texts(path));
  }

  /**
   * `go` on a one-step capture string "a:b": the capturing piece arrives on b
   * (promoted on its far row), every other square of the rectangle a..b is
   * emptied and the squares outside it keep their pieces.
   */
  lemma GoSingleCapture(fs: seq<BoardField>, a: BoardPosition, b: BoardPosition)
    requires Layout(fs) && OnBoard(a) && OnBoard(b)
    ensures GoSpec(fs, CaptureText([a, b])).Some?
    ensures Occupant(GoSpec(fs, CaptureText([a, b])).value, b) == Promoted(Occupant(fs, a), b.y)
    ensures forall q :: OnBoard(q) && q != b ==>
      Occupant(GoSpec(fs, CaptureText([a, b])).value, q) == if InRect(q, a, b) then None else Occupant(fs, q)
  {
    CaptureAccepted(fs, [a, b]);
    var ts := Texts([a, b]);
    KillEffect(fs, ts[0], ts[1], a, b);
    assert KillChain(fs, ts) == KillSpec(fs, ts[0], ts[1]);
  }

  /**
   * `go` on a capture string of several steps is `go` on its first step "a:b"
   * followed by `go` on the rest of the string, from the landing square b.
   */
  lemma GoCaptureSplit(fs: seq<BoardField>, path: seq<BoardPosition>)
    requires Layout(fs) && PathOk(path) && |path| >= 3
    ensures GoSpec(fs, CaptureText(path[..2])).Some?
    ensures GoSpec(fs, CaptureText(path)) ==
      GoSpec(GoSpec(fs, CaptureText(path[..2])).value, CaptureText(path[1..]))
  {
    var ts, us := Texts(path), Texts(path[..2]);
    TextAt(path, 0);
    TextAt(path, 1);
    TextAt(path[..2], 0);
    TextAt(path[..2], 1);
    assert us == ts[..2];
    KillFails(fs, ts[0], ts[1]);
    var gs := KillSpec(fs, ts[0], ts[1]).value;
    assert ts[1..] == Texts(path[1..]);
    assert KillChain(fs, ts) == KillChain(gs, ts[1..]);
    assert KillChain(fs, us) == KillChain(gs, us[1..]) == Some(gs);
    CaptureAccepted(fs, path);
    CaptureAccepted(fs, path[..2]);
    CaptureAccepted(gs, path[1..]);
  }

  /** The i-th name of `Texts` is the printed i-th square. */
  lemma TextAt(ps: seq<BoardPosition>, i: int)
    requires PathOk(ps) && 0 <= i < |ps|
    ensures Texts(ps)[i] == PositionText(ps[i])
  {
    PrintParsed(Texts(ps)[i]);
  }

  /**
   * A slide string makes `go` move the piece: the source square is emptied and
   * its piece stands on the target (promoted on its far row).
   */
  lemma SlideAccepted(fs: seq<BoardField>, from: BoardPosition, to: BoardPosition)
    requires Layout(fs) && OnBoard(from) && OnBoard(to)
    ensures GoSpec(fs, SlideText(from, to)) == PlaceSpec(Put(fs, from, None), to, Occupant(fs, from))
    ensures GoSpec(fs, SlideText(from, to)).Some?
  {
    var a := PositionText(from);
    var b := PositionText(to);
    ParsePrinted(from);
    ParsePrinted(to);
    NameToken(a);
    NameToken(b);
    JoinCons(a, [b], '-');
    var s := SlideText(from, to);
    assert Texts([from, to]) == [a, b];
    assert s == a + ['-'] + b;
    assert s[..2] == a && s[3..] == b;
    assert SquareToken(a, 0) && SquareToken(b, 0);
    assert MoveCommand(s);
  }

  /** Every move `nextMoves` offers is a command `go` carries out without failing. */
  lemma GeneratedMovesAccepted(fs: seq<BoardField>, color: int, x: string)
    requires Layout(fs) && x in NextMovesSpec(fs, color)
    ensures GoSpec(fs, x).Some?
  {
    var ks := CheckersOf(fs, color);
    if CaptureList(fs, color, ks) != [] {
      CapturesOfPieces(fs, color, ks, x);
      var k :| k in ks && FirstCapture(fs, color, k).Some? && x == CaptureText(FirstCapture(fs, color, k).value);
      CaptureAccepted(fs, FirstCapture(fs, color, k).value);
    } else {
      SlidesOverMembers(fs, color, ks, x);
      var k, t :| k in ks && FindMoveWay(fs, k).Some? && t in FindMoveWay(fs, k).value && OnBoard(t) && x == SlideText(k, t);
      SlideAccepted(fs, k, t);
    }
  }

  // ---------------------------------------------------------------------------
  // The game object

  class Game {
    const board: CheckersBoard
    var currentColor: int

    ghost predicate Valid()
      reads this, board
    {
      board.Valid()
    }

    /** A new game: colour 0 to move and the men of both sides on their starting squares. */
    constructor ()
      ensures Valid() && fresh(board) && currentColor == 0
      ensures Some(board.fields) == InitSpec(WhiteStart(), BlackStart())
    {
      board := new CheckersBoard();
      currentColor := 0;
      new;
      var ok := Init(WhiteStart(), BlackStart());
      StartPlaceable();
    }

    /** One `forEach { board.place(it, BoardChecker(color)) }` of `init`. */
    method PlaceMen(names: seq<string>, color: int) returns (ok: bool)
      requires Valid()
      modifies board
      ensures Valid()
      ensures ok == PlaceAll(old(board.fields), names, color).Some?
      ensures ok ==> Some(board.fields) == PlaceAll(old(board.fields), names, color)
    {
      ghost var fs := board.fields;
      var i := 0;
      while i < |names|
        invariant 0 <= i <= |names| && Valid()
        invariant PlaceAll(fs, names, color) == PlaceAll(board.fields, names[i..], color)
      {
        assert names[i..][1..] == names[i + 1..];
        ok := board.Place(names[i], Some(BoardChecker(color, 0)));
        if !ok {
          return;
        }
        i := i + 1;
      }
      ok := true;
    }

    /** `init(white, black)`: an empty board, then the white men, then the black men. */
    method Init(white: seq<string>, black: seq<string>) returns (ok: bool)
      requires Valid()
      modifies board
      ensures Valid()
      ensures ok == InitSpec(white, black).Some?
      ensures ok ==> Some(board.fields) == InitSpec(white, black)
    {
      board.Clear();
      ok := PlaceMen(white, 0);
      if ok {
        ok := PlaceMen(black, 1);
      }
    }

    /** The private `kill(from, to)`. */
    method Kill(from: string, to: string) returns (ok: bool)
      requires Valid()
      modifies board
      ensures Valid()
      ensures ok == KillSpec(old(board.fields), from, to).Some?
      ensures ok ==> board.fields == KillSpec(old(board.fields), from, to).value
    {
      var f := ParsePosition(from);
      if f.None? {
        return false;
      }
      var field := board.Get(f.value);
      var checker := if field.Some? then field.value.checker else None;
      ok := ClearAndPlace(from, to, checker);
    }

    /** The second half of `kill`: clear the rectangle, then place the piece taken. */
    method ClearAndPlace(from: string, to: string, checker: Option<BoardChecker>) returns (ok: bool)
      requires Valid()
      modifies board
      ensures Valid()
      ensures ok == ClearThenPlace(old(board.fields), from, to, checker).Some?
      ensures ok ==> board.fields == ClearThenPlace(old(board.fields), from, to, checker).value
    {
      ok := board.Remove(from, to);
      if ok {
        ok := board.Place(to, checker);
      }
    }

    /** `kill(from, to)` with `remove` emptying only the diagonal, as its documentation says. */
    method KillOnDiagonal(from: string, to: string) returns (ok: bool)
      requires Valid()
      modifies board
      ensures Valid()
      ensures ok == KillAlongDiagonal(old(board.fields), from, to).Some?
      ensures ok ==> board.fields == KillAlongDiagonal(old(board.fields), from, to).value
    {
      var f := ParsePosition(from);
      if f.None? {
        return false;
      }
      var field := board.Get(f.value);
      var checker := if field.Some? then field.value.checker else None;
      ok := ClearDiagonalAndPlace(f.value, to, checker);
    }

    /** The second half of the diagonal kill: empty the diagonal, then place the piece taken. */
    method ClearDiagonalAndPlace(f: BoardPosition, to: string, checker: Option<BoardChecker>) returns (ok: bool)
      requires Valid()
      modifies board
      ensures Valid()
      ensures ok == ClearDiagonalThenPlace(old(board.fields), f, to, checker).Some?
      ensures ok ==> board.fields == ClearDiagonalThenPlace(old(board.fields), f, to, checker).value
    {
      var t := ParsePosition(to);
      if t.None? {
        return false;
      }
      ok := board.RemoveSegment(f, t.value);
      if ok {
        ok := board.Place(to, checker);
      }
    }

    /** `go(command)`: a slide, a chain of kills, or nothing. */
    method Go(command: string) returns (ok: bool)
      requires Valid()
      modifies board
      ensures Valid()
      ensures ok == GoSpec(old(board.fields), command).Some?
      ensures ok ==> board.fields == GoSpec(old(board.fields), command).value
    {
      if MoveCommand(command) {
        ok := board.Move(command[..2], command[3..]);
        return;
      }
      ok := true;
      if KillCommand(command) {
        ghost var fs := board.fields;
        var positions := Split(command, ':');
        var i := 1;
        while i < |positions|
          invariant 1 <= i <= |positions| && Valid()
          invariant KillChain(fs, positions) == KillChain(board.fields, positions[i - 1..])
        {
          assert positions[i - 1..][1..] == positions[i..];
          ok := Kill(positions[i - 1], positions[i]);
          if !ok {
            return;
          }
          i := i + 1;
        }
      }
    }

    /** `queen(pos)`: crown the piece on pos, if any. */
    method Queen(pos: string) returns (ok: bool)
      requires Valid()
      modifies board
      ensures Valid()
      ensures ok == QueenSpec(old(board.fields), pos).Some?
      ensures ok ==> board.fields == QueenSpec(old(board.fields), pos).value
    {
      var p := ParsePosition(pos);
      if p.None? {
        return false;
      }
      ok := true;
      var field := board.Get(p.value);
      if field.Some? && field.value.checker.Some? {
        var c := field.value.checker.value;
        var placed := board.PlaceAt(p.value, Some(BoardChecker(c.color, 1)));
      }
    }

    /** `nextMoves()`: a fresh searcher over this board for the colour to move; the board is not changed. */
    method NextMoves() returns (moves: seq<string>)
      requires Valid()
      ensures moves == NextMovesSpec(board.fields, currentColor)
    {
      var searcher := new MoveSearcher(currentColor, board);
      moves := searcher.NextMoves();
    }
  }
}
