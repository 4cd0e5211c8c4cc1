// The reference engine's move list: the quiet moves (slides) of a piece, the
// capture chain each piece contributes, and the list `nextMoves` returns,
// where captures, when there are any, exclude every slide.

module MoveList {
  import opened Common
  import opened BoardModel
  import opened MoveSearch

  predicate IsDir(d: int) { d == 1 || d == -1 }

  // ---------------------------------------------------------------------------
  // Slides

  /**
   * `(it..8).mapNotNull { getNextPosition(pos, dx * it, dy * it) }`: the
   * on-board squares of a ray (the directions dx, dy are 1 or -1).
   */
  function RaySquares(p: BoardPosition, dx: int, dy: int, it: nat): seq<BoardPosition>
    decreases 9 - it
  {
    if it > 8 then []
    else
      var n := NextPosition(p, Offset(dx, it), Offset(dy, it));
      (if n.Some? then [n.value] else []) + RaySquares(p, dx, dy, it + 1)
  }

  /** Once a ray from a square of the board leaves the board, it stays off it. */
  lemma RayLeaves(p: BoardPosition, dx: int, dy: int, a: int, b: int)
    requires OnBoard(p) && IsDir(dx) && IsDir(dy) && 1 <= a <= b
    requires !OnBoard(Ray(p, dx, dy, a))
    ensures !OnBoard(Ray(p, dx, dy, b))
  {
  }

  lemma {:induction false} RaySquaresOff(p: BoardPosition, dx: int, dy: int, it: nat)
    requires OnBoard(p) && IsDir(dx) && IsDir(dy) && it >= 1 && !OnBoard(Ray(p, dx, dy, it))
    ensures RaySquares(p, dx, dy, it) == []
    decreases 9 - it
  {
    if it <= 8 {
      RayLeaves(p, dx, dy, it, it + 1);
      RaySquaresOff(p, dx, dy, it + 1);
    }
  }

  /** The ray's squares at distances it, it + 1, ..., as long as they are on the board. */
  lemma RaySquaresRay(p: BoardPosition, dx: int, dy: int, it: nat)
    requires OnBoard(p) && IsDir(dx) && IsDir(dy) && it >= 1
    ensures forall i :: 0 <= i < |RaySquares(p, dx, dy, it)| ==>
              RaySquares(p, dx, dy, it)[i] == Ray(p, dx, dy, it + i) && OnBoard(RaySquares(p, dx, dy, it)[i])
    ensures !OnBoard(Ray(p, dx, dy, it + |RaySquares(p, dx, dy, it)|))
  {
    RaySquaresElems(p, dx, dy, it);
    RaySquaresEnd(p, dx, dy, it);
  }

  /** One step of the ray: the square at distance it, when it is on the board, then the rest. */
  lemma RaySquaresStep(p: BoardPosition, dx: int, dy: int, it: nat)
    requires IsDir(dx) && IsDir(dy) && it <= 8
    ensures RaySquares(p, dx, dy, it) ==
      (if OnBoard(Ray(p, dx, dy, it)) then [Ray(p, dx, dy, it)] else []) + RaySquares(p, dx, dy, it + 1)
  {
  }

  lemma {:induction false} RaySquaresElems(p: BoardPosition, dx: int, dy: int, it: nat)
    requires OnBoard(p) && IsDir(dx) && IsDir(dy) && it >= 1
    ensures forall i :: 0 <= i < |RaySquares(p, dx, dy, it)| ==>
              RaySquares(p, dx, dy, it)[i] == Ray(p, dx, dy, it + i) && OnBoard(RaySquares(p, dx, dy, it)[i])
    decreases 9 - it
  {
    if it <= 8 {
      if OnBoard(Ray(p, dx, dy, it)) {
        RaySquaresStep(p, dx, dy, it);
        RaySquaresElems(p, dx, dy, it + 1);
        RayCons(p, dx, dy, it, RaySquares(p, dx, dy, it), RaySquares(p, dx, dy, it + 1));
      } else {
        RaySquaresOff(p, dx, dy, it);
      }
    }
  }

  /** A ray segment that starts one square earlier is that square followed by the segment. */
  lemma RayCons(p: BoardPosition, dx: int, dy: int, it: int, r: seq<BoardPosition>, rest: seq<BoardPosition>)
    requires r == [Ray(p, dx, dy, it)] + rest && OnBoard(Ray(p, dx, dy, it))
    requires forall i :: 0 <= i < |rest| ==> rest[i] == Ray(p, dx, dy, it + 1 + i) && OnBoard(rest[i])
    ensures forall i :: 0 <= i < |r| ==> r[i] == Ray(p, dx, dy, it + i) && OnBoard(r[i])
  {
    forall i | 1 <= i < |r|
      ensures r[i] == Ray(p, dx, dy, it + i) && OnBoard(r[i])
    {
      assert r[i] == rest[i - 1];
    }
  }

  lemma {:induction false} RaySquaresEnd(p: BoardPosition, dx: int, dy: int, it: nat)
    requires OnBoard(p) && IsDir(dx) && IsDir(dy) && it >= 1
    ensures !OnBoard(Ray(p, dx, dy, it + |RaySquares(p, dx, dy, it)|))
    decreases 9 - it
  {
    if it <= 8 {
      if OnBoard(Ray(p, dx, dy, it)) {
        RaySquaresStep(p, dx, dy, it);
        RaySquaresEnd(p, dx, dy, it + 1);
        assert it + |RaySquares(p, dx, dy, it)| == (it + 1) + |RaySquares(p, dx, dy, it + 1)|;
      } else {
        RaySquaresOff(p, dx, dy, it);
      }
    } else {
      assert RaySquares(p, dx, dy, it) == [];
    }
  }

  /** `.takeWhile { board.get(it)?.checker == null }` of a king's ray. */
  function KingSlide(fs: seq<BoardField>, p: BoardPosition, dx: int, dy: int): (s: seq<BoardPosition>)
    requires |fs| == 64
    ensures |s| <= |RaySquares(p, dx, dy, 1)| && s == RaySquares(p, dx, dy, 1)[..|s|]
    ensures forall k :: 0 <= k < |s| ==> Occupant(fs, s[k]).None?
    ensures |s| < |RaySquares(p, dx, dy, 1)| ==> Occupant(fs, RaySquares(p, dx, dy, 1)[|s|]).Some?
  {
    TakeWhile(RaySquares(p, dx, dy, 1), t => Occupant(fs, t).None?)
  }

  /** t is reached from p going (dx, dy) over empty squares only, t included. */
  ghost predicate SlideReach(fs: seq<BoardField>, p: BoardPosition, dx: int, dy: int, t: BoardPosition)
    requires |fs| == 64
  {
    exists j :: 1 <= j && t == Ray(p, dx, dy, j) && OnBoard(t) &&
      forall i :: 1 <= i <= j ==> Occupant(fs, Ray(p, dx, dy, i)).None?
  }

  /** A king's slide along one ray: exactly the squares reached over empty squares, up to the first piece or the edge. */
  lemma KingSlideIff(fs: seq<BoardField>, p: BoardPosition, dx: int, dy: int, t: BoardPosition)
    requires |fs| == 64 && OnBoard(p) && IsDir(dx) && IsDir(dy)
    ensures t in KingSlide(fs, p, dx, dy) <==> SlideReach(fs, p, dx, dy, t)
  {
    KingSlideRay(fs, p, dx, dy);
    if t in KingSlide(fs, p, dx, dy) {
      KingSlideReaches(fs, p, dx, dy, t);
    }
    if SlideReach(fs, p, dx, dy, t) {
      var j :| 1 <= j && t == Ray(p, dx, dy, j) && OnBoard(t) &&
        forall i :: 1 <= i <= j ==> Occupant(fs, Ray(p, dx, dy, i)).None?;
      ReachedInSlide(fs, p, dx, dy, j);
    }
  }

  /** The slide is the ray's first squares, all empty, and it stops at a piece or at the edge. */
  lemma KingSlideRay(fs: seq<BoardField>, p: BoardPosition, dx: int, dy: int)
    requires |fs| == 64 && OnBoard(p) && IsDir(dx) && IsDir(dy)
    ensures forall k :: 0 <= k < |KingSlide(fs, p, dx, dy)| ==>
              KingSlide(fs, p, dx, dy)[k] == Ray(p, dx, dy, k + 1) && OnBoard(KingSlide(fs, p, dx, dy)[k])
    ensures OnBoard(Ray(p, dx, dy, |KingSlide(fs, p, dx, dy)| + 1)) ==>
              Occupant(fs, Ray(p, dx, dy, |KingSlide(fs, p, dx, dy)| + 1)).Some?
  {
    var r := RaySquares(p, dx, dy, 1);
    var s := KingSlide(fs, p, dx, dy);
    RaySquaresRay(p, dx, dy, 1);
    forall k | 0 <= k < |s|
      ensures s[k] == Ray(p, dx, dy, k + 1) && OnBoard(s[k])
    {
      assert s[k] == r[k];
    }
    if OnBoard(Ray(p, dx, dy, |s| + 1)) {
      assert |s| < |r|;
      assert r[|s|] == Ray(p, dx, dy, |s| + 1);
    }
  }

  lemma KingSlideReaches(fs: seq<BoardField>, p: BoardPosition, dx: int, dy: int, t: BoardPosition)
    requires |fs| == 64 && OnBoard(p) && IsDir(dx) && IsDir(dy)
    requires forall k :: 0 <= k < |KingSlide(fs, p, dx, dy)| ==>
               KingSlide(fs, p, dx, dy)[k] == Ray(p, dx, dy, k + 1) && OnBoard(KingSlide(fs, p, dx, dy)[k])
    requires t in KingSlide(fs, p, dx, dy)
    ensures SlideReach(fs, p, dx, dy, t)
  {
    var s := KingSlide(fs, p, dx, dy);
    var k :| 0 <= k < |s| && s[k] == t;
    forall i | 1 <= i <= k + 1
      ensures Occupant(fs, Ray(p, dx, dy, i)).None?
    {
      assert s[i - 1] == Ray(p, dx, dy, i);
    }
    assert t == Ray(p, dx, dy, k + 1);
  }

  lemma ReachedInSlide(fs: seq<BoardField>, p: BoardPosition, dx: int, dy: int, j: int)
    requires |fs| == 64 && OnBoard(p) && IsDir(dx) && IsDir(dy)
    requires forall k :: 0 <= k < |KingSlide(fs, p, dx, dy)| ==> KingSlide(fs, p, dx, dy)[k] == Ray(p, dx, dy, k + 1)
    requires OnBoard(Ray(p, dx, dy, |KingSlide(fs, p, dx, dy)| + 1)) ==>
               Occupant(fs, Ray(p, dx, dy, |KingSlide(fs, p, dx, dy)| + 1)).Some?
    requires 1 <= j && OnBoard(Ray(p, dx, dy, j))
    requires forall i :: 1 <= i <= j ==> Occupant(fs, Ray(p, dx, dy, i)).None?
    ensures Ray(p, dx, dy, j) in KingSlide(fs, p, dx, dy)
  {
    var s := KingSlide(fs, p, dx, dy);
    if |s| < j {
      if !OnBoard(Ray(p, dx, dy, |s| + 1)) {
        RayLeaves(p, dx, dy, |s| + 1, j);
      }
      assert false;
    }
    assert s[j - 1] == Ray(p, dx, dy, j);
  }

  /**
   * `findMoveWay(pos)`: None for an empty square; for a man the free forward
   * diagonal neighbours (up for white, down for black), for a king the free
   * squares of its four rays up to the first piece, rays in the order
   * up-left, up-right, down-left, down-right.
   */
  function FindMoveWay(fs: seq<BoardField>, p: BoardPosition): Option<seq<BoardPosition>>
    requires Layout(fs)
  {
    match Occupant(fs, p)
    case None => None
    case Some(c) =>
      if c.kind == 0 then
        var dy := if c.color == 0 then 1 else -1;
        Some(Filter(Somes([NextPosition(p, -1, dy), NextPosition(p, 1, dy)]), t => Occupant(fs, t).None?))
      else
        Some(KingSlide(fs, p, -1, 1) + KingSlide(fs, p, 1, 1) + KingSlide(fs, p, -1, -1) + KingSlide(fs, p, 1, -1))
  }

  /** A man slides to exactly the empty squares of the board diagonally in front of it. */
  lemma ManSlides(fs: seq<BoardField>, p: BoardPosition, t: BoardPosition)
    requires Layout(fs) && Occupant(fs, p).Some? && Occupant(fs, p).value.kind == 0
    ensures var dy := if Occupant(fs, p).value.color == 0 then 1 else -1;
            t in FindMoveWay(fs, p).value <==>
              OnBoard(t) && t.y == p.y + dy && Abs(t.x - p.x) == 1 && Occupant(fs, t).None?
  {
    var dy := if Occupant(fs, p).value.color == 0 then 1 else -1;
    var ns := [NextPosition(p, -1, dy), NextPosition(p, 1, dy)];
    assert Some(t) in ns <==> (OnBoard(t) && t.y == p.y + dy && Abs(t.x - p.x) == 1) by {
      if OnBoard(t) && t.y == p.y + dy && Abs(t.x - p.x) == 1 {
        if t.x == p.x - 1 { assert ns[0] == Some(t); } else { assert ns[1] == Some(t); }
      }
    }
  }

  /** A king slides to exactly the squares it reaches along some diagonal over empty squares. */
  lemma KingSlides(fs: seq<BoardField>, p: BoardPosition, t: BoardPosition)
    requires Layout(fs) && OnBoard(p) && Occupant(fs, p).Some? && Occupant(fs, p).value.kind != 0
    ensures t in FindMoveWay(fs, p).value <==>
              exists dx, dy :: IsDir(dx) && IsDir(dy) && SlideReach(fs, p, dx, dy, t)
  {
    var a, b, c, d := KingSlide(fs, p, -1, 1), KingSlide(fs, p, 1, 1), KingSlide(fs, p, -1, -1), KingSlide(fs, p, 1, -1);
    var r := FindMoveWay(fs, p).value;
    assert r == a + b + c + d;
    if t in r {
      if t in a {
        KingSlideIff(fs, p, -1, 1, t);
        assert IsDir(-1) && IsDir(1) && SlideReach(fs, p, -1, 1, t);
      } else if t in b {
        KingSlideIff(fs, p, 1, 1, t);
        assert IsDir(1) && IsDir(1) && SlideReach(fs, p, 1, 1, t);
      } else if t in c {
        KingSlideIff(fs, p, -1, -1, t);
        assert IsDir(-1) && IsDir(-1) && SlideReach(fs, p, -1, -1, t);
      } else {
        KingSlideIff(fs, p, 1, -1, t);
        assert IsDir(1) && IsDir(-1) && SlideReach(fs, p, 1, -1, t);
      }
    }
    if exists dx, dy :: IsDir(dx) && IsDir(dy) && SlideReach(fs, p, dx, dy, t) {
      var dx, dy :| IsDir(dx) && IsDir(dy) && SlideReach(fs, p, dx, dy, t);
      KingSlideIff(fs, p, dx, dy, t);
      assert t in KingSlide(fs, p, dx, dy);
      if dx == -1 && dy == 1 {
        assert t in a;
      } else if dx == 1 && dy == 1 {
        assert t in b;
      } else if dx == -1 {
        assert t in c;
      } else {
        assert t in d;
      }
    }
  }

  /** Every square a piece may slide to is on the board and empty. */
  lemma SlidesFree(fs: seq<BoardField>, p: BoardPosition)
    requires Layout(fs) && OnBoard(p)
    ensures FindMoveWay(fs, p).Some? ==>
              forall t :: t in FindMoveWay(fs, p).value ==> OnBoard(t) && Occupant(fs, t).None?
  {
    if FindMoveWay(fs, p).Some? {
      forall t | t in FindMoveWay(fs, p).value
        ensures OnBoard(t) && Occupant(fs, t).None?
      {
        if Occupant(fs, p).value.kind == 0 {
          ManSlides(fs, p, t);
        } else {
          KingSlides(fs, p, t);
          var dx, dy :| IsDir(dx) && IsDir(dy) && SlideReach(fs, p, dx, dy, t);
          var j :| 1 <= j && t == Ray(p, dx, dy, j) && OnBoard(t) &&
            forall i :: 1 <= i <= j ==> Occupant(fs, Ray(p, dx, dy, i)).None?;
          assert Occupant(fs, Ray(p, dx, dy, j)).None?;
        }
      }
    }
  }

  // ---------------------------------------------------------------------------
  // Captures

  /** The search set up by `nextMoves` for the piece on p: the opponent's pieces are the victims. */
  function PieceContext(fs: seq<BoardField>, color: int, p: BoardPosition): SearchContext
    requires Layout(fs)
  {
    SearchContext(fs, color, p, CheckersOf(fs, Opponent(color)))
  }

  /** `board.get(it)!!.checker!!.type`: the kind of the piece on p (0 for an empty square, which `nextMoves` never meets). */
  function KindAt(fs: seq<BoardField>, p: BoardPosition): int
    requires |fs| == 64
  {
    if Occupant(fs, p).Some? then Occupant(fs, p).value.kind else 0
  }

  /** The root of a search: the piece standing on p, nothing captured. */
  function Root(p: BoardPosition): Move
  {
    Move(None, None, p)
  }

  /** `getKillerMoves(it)` for the piece on p. */
  function PieceChains(fs: seq<BoardField>, color: int, p: BoardPosition): seq<Move>
    requires Layout(fs)
  {
    KillerMovesFrom(PieceContext(fs, color, p), Root(p), KindAt(fs, p)).0
  }

  lemma PieceContextOk(fs: seq<BoardField>, color: int, p: BoardPosition)
    requires Layout(fs) && OnBoard(p)
    ensures ContextOk(PieceContext(fs, color, p))
  {
  }

  /**
   * The first chain a search from a lone piece on p appends: a well-formed chain
   * from p, longer than p alone exactly when a first step is possible.
   */
  lemma FirstChain(ctx: SearchContext, p: BoardPosition, kt: int)
    requires ContextOk(ctx) && OnBoard(p)
    ensures |KillerMovesFrom(ctx, Root(p), kt).0| >= 1
    ensures ChainOk(ctx.victims, KillerMovesFrom(ctx, Root(p), kt).0[0])
    ensures Path(KillerMovesFrom(ctx, Root(p), kt).0[0])[0] == p
    ensures |Path(KillerMovesFrom(ctx, Root(p), kt).0[0])| > 1 <==> CanStep(ctx, Root(p), kt)
  {
    var chains := KillerMovesFrom(ctx, Root(p), kt).0;
    KillerMovesFromOk(ctx, Root(p), kt);
    FirstChainLonger(chains, p, CanStep(ctx, Root(p), kt));
    ExtendsPath(chains[0], Root(p));
    assert Path(chains[0])[..1] == [p];
  }

  lemma FirstChainLonger(chains: seq<Move>, p: BoardPosition, canStep: bool)
    requires |chains| >= 1
    requires !canStep ==> chains == [Root(p)]
    requires canStep ==> forall l :: l in chains ==> Depth(l) > Depth(Root(p))
    ensures |Path(chains[0])| > 1 <==> canStep
    ensures chains[0] in chains
  {
    assert chains[0] in chains;
    PathLength(chains[0]);
  }

  /**
   * What `nextMoves` keeps of the piece on p: the squares of the FIRST chain the
   * search finds, when that chain has more than one square; nothing otherwise.
   */
  function FirstCapture(fs: seq<BoardField>, color: int, p: BoardPosition): (r: Option<seq<BoardPosition>>)
    requires Layout(fs) && OnBoard(p)
    ensures r.Some? ==> |r.value| >= 2 && r.value[0] == p
    ensures r.Some? ==> forall i :: 0 <= i < |r.value| ==> OnBoard(r.value[i])
  {
    var chains := PieceChains(fs, color, p);
    PieceContextOk(fs, color, p);
    FirstChain(PieceContext(fs, color, p), p, KindAt(fs, p));
    ChainPath(CheckersOf(fs, Opponent(color)), chains[0]);
    if |Path(chains[0])| > 1 then Some(Path(chains[0])) else None
  }

  /** The piece on p has a capture exactly when the chain search can take a first step from p. */
  lemma FirstCaptureIff(fs: seq<BoardField>, color: int, p: BoardPosition)
    requires Layout(fs) && OnBoard(p)
    ensures FirstCapture(fs, color, p).Some? <==> CanStep(PieceContext(fs, color, p), Root(p), KindAt(fs, p))
  {
    PieceContextOk(fs, color, p);
    FirstChain(PieceContext(fs, color, p), p, KindAt(fs, p));
  }

  /** A reported capture is the path of a well-formed chain: each square beyond an opposing piece taken from the previous one. */
  lemma FirstCaptureChain(fs: seq<BoardField>, color: int, p: BoardPosition)
    requires Layout(fs) && OnBoard(p) && FirstCapture(fs, color, p).Some?
    ensures |PieceChains(fs, color, p)| >= 1 && ChainOk(CheckersOf(fs, Opponent(color)), PieceChains(fs, color, p)[0])
    ensures FirstCapture(fs, color, p).value == Path(PieceChains(fs, color, p)[0])
  {
    PieceContextOk(fs, color, p);
    FirstChain(PieceContext(fs, color, p), p, KindAt(fs, p));
  }

  // ---------------------------------------------------------------------------
  // Move strings

  /** `map { it.toString() }` of a list of squares. */
  function Texts(ps: seq<BoardPosition>): (r: seq<string>)
    requires forall i :: 0 <= i < |ps| ==> OnBoard(ps[i])
    ensures |r| == |ps|
    ensures forall i :: 0 <= i < |r| ==> ParsePosition(r[i]) == Some(ps[i]) && |r[i]| == 2
  {
    if ps == [] then []
    else
      assert OnBoard(ps[0]);
      ParsePrinted(ps[0]);
      [PositionText(ps[0])] + Texts(ps[1..])
  }

  /** The name of a square of the board is a letter and a digit, so it holds neither ':' nor '-'. */
  lemma NameHasNoSeparator(p: BoardPosition)
    requires OnBoard(p)
    ensures ':' !in PositionText(p) && '-' !in PositionText(p)
  {
    ParsePrinted(p);
    var s := PositionText(p);
    assert s[1..] == IntText(p.y) == [DigitChar(p.y)];
    assert s == [s[0], s[1]];
  }

  lemma TextsHaveNoSeparator(ps: seq<BoardPosition>)
    requires forall i :: 0 <= i < |ps| ==> OnBoard(ps[i])
    ensures forall i :: 0 <= i < |ps| ==> ':' !in Texts(ps)[i] && '-' !in Texts(ps)[i]
  {
    forall i | 0 <= i < |ps|
      ensures ':' !in Texts(ps)[i] && '-' !in Texts(ps)[i]
    {
      NameHasNoSeparator(ps[i]);
      assert ParsePosition(Texts(ps)[i]) == Some(ps[i]) && |Texts(ps)[i]| == 2;
      PrintParsed(Texts(ps)[i]);
    }
  }

  /** A capture as `nextMoves` writes it: the squares joined by ':', as in "c3:e5:g3". */
  function CaptureText(path: seq<BoardPosition>): string
    requires PathOk(path)
  {
    Join(Texts(path), ':')
  }

  /** A slide as `nextMoves` writes it: the two squares joined by '-', as in "c3-d4". */
  function SlideText(from: BoardPosition, to: BoardPosition): string
    requires OnBoard(from) && OnBoard(to)
  {
    Join(Texts([from, to]), '-')
  }

  /** Splitting a capture string at ':' and parsing each part gives the chain's squares back. */
  lemma CaptureTextRoundTrip(path: seq<BoardPosition>)
    requires PathOk(path)
    ensures |Split(CaptureText(path), ':')| == |path|
    ensures forall i :: 0 <= i < |path| ==> ParsePosition(Split(CaptureText(path), ':')[i]) == Some(path[i])
  {
    TextsHaveNoSeparator(path);
    SplitJoin(Texts(path), ':');
  }

  /** Splitting a slide string at '-' and parsing both parts gives the two squares back. */
  lemma SlideTextRoundTrip(from: BoardPosition, to: BoardPosition)
    requires OnBoard(from) && OnBoard(to)
    ensures |Split(SlideText(from, to), '-')| == 2
    ensures ParsePosition(Split(SlideText(from, to), '-')[0]) == Some(from)
    ensures ParsePosition(Split(SlideText(from, to), '-')[1]) == Some(to)
  {
    TextsHaveNoSeparator([from, to]);
    SplitJoin(Texts([from, to]), '-');
  }

  // ---------------------------------------------------------------------------
  // nextMoves

  /** A path `nextMoves` can write out: at least one square, all of them on the board. */
  predicate PathOk(path: seq<BoardPosition>)
  {
    |path| >= 1 && forall i :: 0 <= i < |path| ==> OnBoard(path[i])
  }

  /** The capture search `nextMoves` runs for one piece: its first capture chain, if any. */
  function CaptureFinder(fs: seq<BoardField>, color: int): (f: BoardPosition -> Option<seq<BoardPosition>>)
    requires Layout(fs)
    ensures forall k :: OnBoard(k) ==> f(k) == FirstCapture(fs, color, k)
    ensures forall k :: f(k).Some? ==> PathOk(f(k).value)
  {
    k => if OnBoard(k) then FirstCapture(fs, color, k) else None
  }

  /** The FirstCapture of each piece on ks, in order. */
  function FirstCaptures(fs: seq<BoardField>, color: int, ks: seq<BoardPosition>): (r: seq<Option<seq<BoardPosition>>>)
    requires Layout(fs)
    ensures |r| == |ks|
    ensures forall i :: 0 <= i < |ks| && OnBoard(ks[i]) ==> r[i] == FirstCapture(fs, color, ks[i])
    ensures PathsOk(r)
  {
    Map(CaptureFinder(fs, color), ks)
  }

  predicate PathsOk(cs: seq<Option<seq<BoardPosition>>>)
  {
    forall c :: c in cs ==> c.Some? ==> PathOk(c.value)
  }

  /** `mapNotNull` then `map { reduce ':' }`: the capture string of each piece that has one, in order. */
  function CaptureTexts(cs: seq<Option<seq<BoardPosition>>>): (r: seq<string>)
    requires PathsOk(cs)
    ensures |r| <= |cs|
  {
    if cs == [] then []
    else
      assert cs[0] in cs;
      (if cs[0].Some? then [CaptureText(cs[0].value)] else []) + CaptureTexts(cs[1..])
  }

  /** The slide strings of the piece on p, one per free square in `findMoveWay` order; none for an empty square. */
  function SlidesOf(fs: seq<BoardField>, p: BoardPosition): seq<string>
    requires Layout(fs) && OnBoard(p)
  {
    SlidesFree(fs, p);
    match FindMoveWay(fs, p)
    case Some(ts) => SlidesFrom(p, ts)
    case None => []
  }

  /** The slide strings of the pieces on ks: for each piece in order, its SlidesOf. */
  function SlidesOver(fs: seq<BoardField>, color: int, ks: seq<BoardPosition>): seq<string>
    requires Layout(fs) && forall k :: k in ks ==> OnBoard(k)
  {
    if ks == [] then [] else SlidesOf(fs, ks[0]) + SlidesOver(fs, color, ks[1..])
  }

  /** Scanning one more piece appends its slides. */
  lemma {:induction false} SlidesOverAppend(fs: seq<BoardField>, color: int, ks: seq<BoardPosition>, k: BoardPosition)
    requires Layout(fs) && (forall q :: q in ks ==> OnBoard(q)) && OnBoard(k)
    ensures SlidesOver(fs, color, ks + [k]) == SlidesOver(fs, color, ks) + SlidesOf(fs, k)
  {
    if ks == [] {
      assert SlidesOver(fs, color, [k]) == SlidesOf(fs, k) + SlidesOver(fs, color, []);
    } else {
      assert (ks + [k])[1..] == ks[1..] + [k];
      SlidesOverAppend(fs, color, ks[1..], k);
    }
  }

  /** Scanning one more piece appends its FirstCapture. */
  lemma FirstCapturesAppend(fs: seq<BoardField>, color: int, ks: seq<BoardPosition>, k: BoardPosition)
    requires Layout(fs) && OnBoard(k)
    ensures FirstCaptures(fs, color, ks + [k]) == FirstCaptures(fs, color, ks) + [FirstCapture(fs, color, k)]
  {
    MapAppend(CaptureFinder(fs, color), ks, k);
  }

  /** One more optional path appends its capture string, if it has one. */
  lemma {:induction false} CaptureTextsAppend(cs: seq<Option<seq<BoardPosition>>>, c: Option<seq<BoardPosition>>)
    requires PathsOk(cs) && (c.Some? ==> PathOk(c.value))
    ensures PathsOk(cs + [c])
    ensures CaptureTexts(cs + [c]) == CaptureTexts(cs) + (if c.Some? then [CaptureText(c.value)] else [])
  {
    if cs == [] {
      assert CaptureTexts([c]) == (if c.Some? then [CaptureText(c.value)] else []) + CaptureTexts([]);
    } else {
      assert (cs + [c])[1..] == cs[1..] + [c];
      assert cs[0] in cs;
      assert PathsOk(cs[1..]);
      CaptureTextsAppend(cs[1..], c);
    }
  }

  /** A chain as `nextMoves` keeps it: its squares, when it takes something. */
  function Capture(m: Move): Option<seq<BoardPosition>>
  {
    if |Path(m)| > 1 then Some(Path(m)) else None
  }

  /** The capture strings of the pieces on ks, in order: `mapNotNull` over their first chains, each joined by ':'. */
  function CaptureList(fs: seq<BoardField>, color: int, ks: seq<BoardPosition>): (r: seq<string>)
    requires Layout(fs)
    ensures |r| <= |ks|
  {
    CaptureTexts(FirstCaptures(fs, color, ks))
  }

  /**
   * The chains a search aimed at the piece on k finds, against the opposing
   * pieces vs, begin with one whose path is that piece's FirstCapture.
   */
  lemma FirstCaptureOfSearch(fs: seq<BoardField>, color: int, k: BoardPosition, vs: seq<BoardPosition>, chains: seq<Move>)
    requires Layout(fs) && OnBoard(k) && vs == CheckersOf(fs, Opponent(color))
    requires chains == KillerMovesFrom(SearchContext(fs, color, k, vs), Root(k), KindAt(fs, k)).0
    ensures |chains| >= 1
    ensures FirstCapture(fs, color, k) == Capture(chains[0])
  {
    assert SearchContext(fs, color, k, vs) == PieceContext(fs, color, k);
    FirstCaptureOfChains(fs, color, k);
  }

  /**
   * The state of `nextMoves`' scan after the first i pieces of ks: found holds
   * their FirstCaptures and moves the texts of those that are present.
   */
  ghost predicate Scanned(fs: seq<BoardField>, color: int, ks: seq<BoardPosition>, i: int,
                          found: seq<Option<seq<BoardPosition>>>, moves: seq<string>)
    requires Layout(fs)
  {
    0 <= i <= |ks| && found == FirstCaptures(fs, color, ks)[..i] && PathsOk(found) && moves == CaptureTexts(found)
  }

  lemma ScanStart(fs: seq<BoardField>, color: int, ks: seq<BoardPosition>)
    requires Layout(fs)
    ensures Scanned(fs, color, ks, 0, [], [])
  {
  }

  /**
   * One turn of the scan: the FirstCapture of the piece on ks[i] extends
   * found, and moves by its text when it has one.
   */
  lemma ScanStep(fs: seq<BoardField>, color: int, ks: seq<BoardPosition>, i: int,
                 found: seq<Option<seq<BoardPosition>>>, moves: seq<string>, c: Option<seq<BoardPosition>>)
    requires Layout(fs) && (forall q :: q in ks ==> OnBoard(q)) && i < |ks|
    requires Scanned(fs, color, ks, i, found, moves) && c == FirstCapture(fs, color, ks[i])
    ensures c.Some? ==> PathOk(c.value)
    ensures Scanned(fs, color, ks, i + 1, found + [c], moves + if c.Some? then [CaptureText(c.value)] else [])
  {
    assert ks[i] in ks;
    PrefixGrows(FirstCaptures(fs, color, ks), i);
    CaptureTextsAppend(found, c);
  }

  /** The finished scan: moves are the capture strings of all of ks. */
  lemma ScanDone(fs: seq<BoardField>, color: int, ks: seq<BoardPosition>,
                 found: seq<Option<seq<BoardPosition>>>, moves: seq<string>)
    requires Layout(fs) && Scanned(fs, color, ks, |ks|, found, moves)
    ensures moves == CaptureList(fs, color, ks)
  {
    assert FirstCaptures(fs, color, ks)[..|ks|] == FirstCaptures(fs, color, ks);
  }

  /** FirstCapture in terms of the first chain the search appends. */
  lemma FirstCaptureOfChains(fs: seq<BoardField>, color: int, p: BoardPosition)
    requires Layout(fs) && OnBoard(p)
    ensures |PieceChains(fs, color, p)| >= 1
    ensures FirstCapture(fs, color, p) ==
              if |Path(PieceChains(fs, color, p)[0])| > 1 then Some(Path(PieceChains(fs, color, p)[0])) else None
  {
    PieceContextOk(fs, color, p);
    FirstChain(PieceContext(fs, color, p), p, KindAt(fs, p));
  }

  function SlidesFrom(from: BoardPosition, ts: seq<BoardPosition>): (r: seq<string>)
    requires OnBoard(from) && forall t :: t in ts ==> OnBoard(t)
    ensures |r| == |ts| && forall i :: 0 <= i < |ts| ==> r[i] == SlideText(from, ts[i])
  {
    if ts == [] then [] else [SlideText(from, ts[0])] + SlidesFrom(from, ts[1..])
  }

  /**
   * `nextMoves()`: the capture strings of the mover's pieces, in board order;
   * when no piece can capture, the slide strings instead.
   */
  function NextMovesSpec(fs: seq<BoardField>, color: int): seq<string>
    requires Layout(fs)
  {
    var ks := CheckersOf(fs, color);
    var captures := CaptureList(fs, color, ks);
    if captures != [] then captures else SlidesOver(fs, color, ks)
  }

  /** The capture strings are exactly the ':'-joined paths present in cs. */
  lemma {:induction false} CaptureTextsMembers(cs: seq<Option<seq<BoardPosition>>>, x: string)
    requires PathsOk(cs)
    ensures x in CaptureTexts(cs) <==> exists c :: c in cs && c.Some? && x == CaptureText(c.value)
  {
    if cs != [] {
      CaptureTextsMembers(cs[1..], x);
      assert cs[0] in cs;
      assert forall c :: c in cs ==> c == cs[0] || c in cs[1..];
    }
  }

  /** No capture string exactly when no path is present. */
  lemma {:induction false} CaptureTextsEmpty(cs: seq<Option<seq<BoardPosition>>>)
    requires PathsOk(cs)
    ensures CaptureTexts(cs) == [] <==> forall c :: c in cs ==> c.None?
  {
    if cs != [] {
      CaptureTextsEmpty(cs[1..]);
      assert cs[0] in cs;
      assert forall c :: c in cs ==> c == cs[0] || c in cs[1..];
    }
  }

  lemma FirstCapturesMembers(fs: seq<BoardField>, color: int, ks: seq<BoardPosition>, c: Option<seq<BoardPosition>>)
    requires Layout(fs) && forall k :: k in ks ==> OnBoard(k)
    ensures c in FirstCaptures(fs, color, ks) <==> exists k :: k in ks && c == FirstCapture(fs, color, k)
  {
    var r := FirstCaptures(fs, color, ks);
    if c in r {
      var i :| 0 <= i < |r| && r[i] == c;
      assert ks[i] in ks;
    }
    if exists k :: k in ks && c == FirstCapture(fs, color, k) {
      var k :| k in ks && c == FirstCapture(fs, color, k);
      var i :| 0 <= i < |ks| && ks[i] == k;
      assert r[i] == c;
    }
  }

  /** The strings SlidesFrom builds are "from-to" for each square t of ts. */
  lemma SlidesFromMembers(from: BoardPosition, ts: seq<BoardPosition>, x: string)
    requires OnBoard(from) && forall t :: t in ts ==> OnBoard(t)
    ensures x in SlidesFrom(from, ts) <==> exists t :: t in ts && x == SlideText(from, t)
  {
    var here := SlidesFrom(from, ts);
    if x in here {
      var i :| 0 <= i < |here| && here[i] == x;
      assert ts[i] in ts;
    }
    if exists t :: t in ts && x == SlideText(from, t) {
      var t :| t in ts && x == SlideText(from, t);
      var i :| 0 <= i < |ts| && ts[i] == t;
      assert here[i] == x;
    }
  }

  /** The slide strings are exactly "from-to" for each piece on ks and each square it may slide to. */
  lemma {:induction false} SlidesOverMembers(fs: seq<BoardField>, color: int, ks: seq<BoardPosition>, x: string)
    requires Layout(fs) && forall k :: k in ks ==> OnBoard(k)
    ensures x in SlidesOver(fs, color, ks) <==>
              exists k, t :: k in ks && FindMoveWay(fs, k).Some? && t in FindMoveWay(fs, k).value &&
                OnBoard(t) && x == SlideText(k, t)
  {
    if ks != [] {
      var k := ks[0];
      SlidesOverMembers(fs, color, ks[1..], x);
      SlidesFree(fs, k);
      if FindMoveWay(fs, k).Some? {
        SlidesFromMembers(k, FindMoveWay(fs, k).value, x);
      }
      assert forall k' :: k' in ks ==> k' == k || k' in ks[1..];
    }
  }

  /** The capture strings of the pieces on ks: one per piece that has a capture, its first chain joined by ':'. */
  lemma CapturesOfPieces(fs: seq<BoardField>, color: int, ks: seq<BoardPosition>, x: string)
    requires Layout(fs) && forall k :: k in ks ==> OnBoard(k)
    ensures x in CaptureList(fs, color, ks) <==>
              exists k :: k in ks && FirstCapture(fs, color, k).Some? && x == CaptureText(FirstCapture(fs, color, k).value)
  {
    var cs := FirstCaptures(fs, color, ks);
    CaptureTextsMembers(cs, x);
    if x in CaptureTexts(cs) {
      var c :| c in cs && c.Some? && x == CaptureText(c.value);
      FirstCapturesMembers(fs, color, ks, c);
    }
    if exists k :: k in ks && FirstCapture(fs, color, k).Some? && x == CaptureText(FirstCapture(fs, color, k).value) {
      var k :| k in ks && FirstCapture(fs, color, k).Some? && x == CaptureText(FirstCapture(fs, color, k).value);
      FirstCapturesMembers(fs, color, ks, FirstCapture(fs, color, k));
    }
  }

  /** There is no capture string exactly when no piece on ks can take a first step. */
  lemma NoCapturesOfPieces(fs: seq<BoardField>, color: int, ks: seq<BoardPosition>)
    requires Layout(fs) && forall k :: k in ks ==> OnBoard(k)
    ensures CaptureList(fs, color, ks) == [] <==>
              forall k :: k in ks ==> !CanStep(PieceContext(fs, color, k), Root(k), KindAt(fs, k))
  {
    var cs := FirstCaptures(fs, color, ks);
    CaptureTextsEmpty(cs);
    if exists k :: k in ks && CanStep(PieceContext(fs, color, k), Root(k), KindAt(fs, k)) {
      var k :| k in ks && CanStep(PieceContext(fs, color, k), Root(k), KindAt(fs, k));
      FirstCaptureIff(fs, color, k);
      FirstCapturesMembers(fs, color, ks, FirstCapture(fs, color, k));
    }
    if exists c :: c in cs && c.Some? {
      var c :| c in cs && c.Some?;
      FirstCapturesMembers(fs, color, ks, c);
      var k :| k in ks && c == FirstCapture(fs, color, k);
      FirstCaptureIff(fs, color, k);
    }
  }

  /**
   * Capture is compulsory: when some piece of the mover can capture, the moves
   * offered are exactly the capture strings of the pieces that can.
   */
  lemma NextMovesCaptures(fs: seq<BoardField>, color: int, x: string)
    requires Layout(fs)
    requires exists k :: k in CheckersOf(fs, color) && CanStep(PieceContext(fs, color, k), Root(k), KindAt(fs, k))
    ensures x in NextMovesSpec(fs, color) <==>
              exists k :: k in CheckersOf(fs, color) && FirstCapture(fs, color, k).Some? &&
                x == CaptureText(FirstCapture(fs, color, k).value)
  {
    NoCapturesOfPieces(fs, color, CheckersOf(fs, color));
    CapturesOfPieces(fs, color, CheckersOf(fs, color), x);
  }

  /** When no piece of the mover can capture, the moves offered are exactly its slides. */
  lemma NextMovesSlides(fs: seq<BoardField>, color: int, x: string)
    requires Layout(fs)
    requires forall k :: k in CheckersOf(fs, color) ==> !CanStep(PieceContext(fs, color, k), Root(k), KindAt(fs, k))
    ensures x in NextMovesSpec(fs, color) <==>
              exists k, t :: k in CheckersOf(fs, color) && FindMoveWay(fs, k).Some? && t in FindMoveWay(fs, k).value &&
                OnBoard(t) && x == SlideText(k, t)
  {
    NoCapturesOfPieces(fs, color, CheckersOf(fs, color));
    SlidesOverMembers(fs, color, CheckersOf(fs, color), x);
  }
}
