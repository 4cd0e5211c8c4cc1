/**
 * The `MoveSearcher` object: the move list of one side, found by a search
 * that keeps its state (start square, killer type, opposing pieces) in fields
 * and collects the chains it finds into a list.
 */
module Searcher {
  import opened Common
  import opened BoardModel
  import opened MoveSearch
  import opened MoveList

  class MoveSearcher {
    const currentColor: int
    const board: CheckersBoard
    /** The square the searched piece started from (`lateinit` in the original; the corner before the first search). */
    var startPosition: BoardPosition
    /** 0 while the searched piece moves as a man, 1 once it moves as a king. */
    var killerType: int
    /** The opposing pieces (`lateinit` in the original; empty before the first search). */
    var victims: seq<BoardPosition>

    ghost predicate Valid()
      reads board
    {
      board.Valid()
    }

    /** The state the chain search reads. */
    function Context(): SearchContext
      reads this`startPosition, this`victims, board
    {
      SearchContext(board.fields, currentColor, startPosition, victims)
    }

    constructor (color: int, b: CheckersBoard)
      requires b.Valid()
      ensures Valid() && currentColor == color && board == b
      ensures killerType == 0 && victims == []
    {
      currentColor := color;
      board := b;
      startPosition := BoardPosition(1, 1);
      killerType := 0;
      victims := [];
    }

    /** `getKilledInMove(move)`: walk the links back to the root, collecting the victims, latest first. */
    method GetKilledInMove(move: Move) returns (killed: seq<BoardPosition>)
      ensures killed == Killed(move)
    {
      killed := [];
      var curMove := Some(move);
      while curMove.Some?
        invariant Killed(move) == killed + KilledOf(curMove)
        decreases DepthOf(curMove)
      {
        var m := curMove.value;
        KilledUnwind(m, killed);
        killed := killed + if m.victim.Some? then [m.victim.value] else [];
        curMove := m.from;
      }
      assert killed + [] == killed;
    }

    /**
     * `getKillerMoves(initMove, allMoves)`: follow the only continuation while
     * there is one, branch into a recursive search for each of several, and
     * append the chain where no step is possible; the killer type left behind
     * is the one the search ended with.
     */
    method CollectKillerMoves(initMove: Move, allMoves: seq<Move>) returns (all: seq<Move>)
      requires Valid()
      modifies this`killerType
      ensures all == allMoves + KillerMovesFrom(old(Context()), initMove, old(killerType)).0
      ensures killerType == KillerMovesFrom(old(Context()), initMove, old(killerType)).1
      decreases Remaining(Context(), initMove)
    {
      ghost var ctx := Context();
      ghost var target := KillerMovesFrom(ctx, initMove, killerType);
      var move := initMove;
      while true
        invariant KillerMovesFrom(ctx, move, killerType) == target
        invariant Remaining(ctx, move) <= Remaining(ctx, initMove)
        decreases Remaining(ctx, move)
      {
        ghost var kt := killerType;
        var killer := move.to;
        if killerType == 0 {
          if (move.to.y == 1 && currentColor == 1) || (move.to.y == 8 && currentColor == 0) {
            killerType := 1;
          }
        }
        assert killerType == KillerTypeAt(ctx.color, kt, move.to.y);
        var killed := GetKilledInMove(move);
        var nearbyVictims := UnblockedVictims(Context(), killer, killed, killerType);
        if nearbyVictims == [] {
          SearchStops(ctx, move, kt, killerType, nearbyVictims);
          break;
        }
        var nextMoves := NextStepMoves(Context(), move, killerType, nearbyVictims);
        if nextMoves == [] {
          SearchStops(ctx, move, kt, killerType, nearbyVictims);
          break;
        }
        SearchSteps(ctx, move, killerType, nearbyVictims, nextMoves);
        if |nextMoves| > 1 {
          SearchBranches(ctx, move, kt, killerType, nearbyVictims, nextMoves);
          all := CollectEach(nextMoves, allMoves, Remaining(ctx, move), Remaining(ctx, initMove));
          return;
        }
        SearchFollows(ctx, move, kt, killerType, nearbyVictims, nextMoves);
        move := nextMoves[0];
      }
      all := allMoves + [move];
    }

    /** `nextMoves.forEach { getKillerMoves(it, allMoves) }`. */
    method CollectEach(nextMoves: seq<Move>, allMoves: seq<Move>, ghost bound: set<BoardPosition>, ghost limit: set<BoardPosition>)
      returns (all: seq<Move>)
      requires Valid() && bound <= limit
      requires forall i :: 0 <= i < |nextMoves| ==> Remaining(Context(), nextMoves[i]) < bound
      modifies this`killerType
      ensures all == allMoves + KillerMovesEach(old(Context()), nextMoves, old(killerType), bound).0
      ensures killerType == KillerMovesEach(old(Context()), nextMoves, old(killerType), bound).1
      decreases limit, 0
    {
      ghost var ctx := Context();
      ghost var goal := (allMoves + KillerMovesEach(ctx, nextMoves, killerType, bound).0,
                         KillerMovesEach(ctx, nextMoves, killerType, bound).1);
      ghost var rest := nextMoves;
      all := allMoves;
      var i := 0;
      while i < |nextMoves|
        invariant 0 <= i <= |nextMoves| && rest == nextMoves[i..]
        invariant Collecting(ctx, rest, killerType, bound, all, goal)
      {
        CollectingStep(ctx, rest, killerType, bound, all, goal);
        all := CollectKillerMoves(nextMoves[i], all);
        rest := rest[1..];
        i := i + 1;
      }
      CollectingDone(ctx, killerType, bound, all, goal);
    }

    /** `getKillerMoves(attackPosition)`: the chains found from a lone piece on that square. */
    method GetKillerMoves(attackPosition: BoardPosition) returns (moves: seq<Move>)
      requires Valid()
      modifies this`killerType
      ensures victims == old(victims)
      ensures moves == KillerMovesFrom(SearchContext(board.fields, currentColor, old(startPosition), old(victims)),
                                       Root(attackPosition), old(killerType)).0
    {
      moves := CollectKillerMoves(Move(None, None, attackPosition), []);
    }

    /** The start of the `mapNotNull` lambda of `nextMoves()`: aim the search at the piece on k, with its own kind. */
    method SearchPiece(k: BoardPosition) returns (chains: seq<Move>)
      requires Valid() && OnBoard(k) && Occupant(board.fields, k).Some?
      modifies this`startPosition, this`killerType
      ensures board.fields == old(board.fields) && victims == old(victims) && startPosition == k
      ensures chains == KillerMovesFrom(SearchContext(board.fields, currentColor, k, old(victims)),
                                        Root(k), KindAt(board.fields, k)).0
    {
      startPosition := k;
      killerType := board.Get(k).value.checker.value.kind;
      chains := GetKillerMoves(k);
    }

    /**
     * The `mapNotNull` lambda of `nextMoves()`: aim the search at the piece on
     * k, with its own kind, and keep the squares of the first chain found when
     * it takes something.
     */
    method PieceCapture(k: BoardPosition) returns (c: Option<seq<BoardPosition>>)
      requires Valid() && OnBoard(k) && Occupant(board.fields, k).Some?
      requires victims == CheckersOf(board.fields, Opponent(currentColor))
      modifies this`startPosition, this`killerType
      ensures board.fields == old(board.fields) && victims == old(victims)
      ensures c == FirstCapture(board.fields, currentColor, k)
    {
      ghost var opponents := victims;
      var chains := SearchPiece(k);
      FirstCaptureOfSearch(board.fields, currentColor, k, opponents, chains);
      // `forEach` returns from the lambda at the first chain.
      var list := chains[0].ToList();
      if |list| > 1 {
        c := Some(list);
      } else {
        c := None;
      }
    }

    /**
     * `nextMoves()`: for each piece of the mover in board order, the first
     * chain its search finds, written "a:b:c" when it takes something; when no
     * piece can take, every slide of every piece, written "a-b".
     */
    method NextMoves() returns (moves: seq<string>)
      requires Valid()
      modifies this`startPosition, this`killerType, this`victims
      ensures moves == NextMovesSpec(board.fields, currentColor)
    {
      victims := board.GetCheckers(Opponent(currentColor));
      var killers := board.GetCheckers(currentColor);
      moves := CaptureMoves(killers);
      if moves == [] {
        moves := SlidesOver(board.fields, currentColor, board.GetCheckers(currentColor));
      }
    }

    /** The `forEach` over the mover's pieces in `nextMoves()`: the capture strings, in board order. */
    method CaptureMoves(killers: seq<BoardPosition>) returns (moves: seq<string>)
      requires Valid() && victims == CheckersOf(board.fields, Opponent(currentColor))
      requires forall q :: q in killers ==> OnBoard(q) && Occupant(board.fields, q).Some?
      modifies this`startPosition, this`killerType
      ensures board.fields == old(board.fields)
      ensures moves == CaptureList(old(board.fields), currentColor, killers)
    {
      var fs := board.fields;
      var opponents := victims;
      moves := [];
      ghost var found: seq<Option<seq<BoardPosition>>> := [];
      ScanStart(fs, currentColor, killers);
      var i := 0;
      while i < |killers|
        invariant board.fields == fs && victims == opponents
        invariant Scanned(fs, currentColor, killers, i, found, moves)
      {
        var c := PieceCapture(killers[i]);
        ScanStep(fs, currentColor, killers, i, found, moves, c);
        moves := moves + if c.Some? then [CaptureText(c.value)] else [];
        found := found + [c];
        i := i + 1;
      }
      ScanDone(fs, currentColor, killers, found, moves);
    }
  }
}
