# Russian draughts engines of m31k0l2/checkers, modelled in Dafny

The repository plays Russian draughts (8 × 8 board, men move forward, kings
fly along diagonals, capture is compulsory and a capture chain goes on while
the capturing piece can take again). This project models its rule engines and
the two input transformers of its neural network, and proves what they
promise.

- **The reference engine** (`checkers_rules`):
  - `CheckersBoard` (module `BoardModel`): 64 fields held row by row, with
    `get`, `place` (a man reaching its far row is crowned), `move`, the
    rectangle-clearing `remove` and `getCheckers`. Beside `remove` as written
    stands the diagonal-only clearing its documentation describes (see
    Findings).
  - `MoveSearcher` (modules `MoveSearch` and `Searcher`, plus `MoveList` for
    the `nextMoves` scan): the linked `Move` chain, victim search, landing
    squares, and the recursive capture search with its `killerType` field.
    Quiet moves are the fallback when nothing can capture.
  - `Game` (module `Rules`): the start position, `init`, `go` for slide and
    capture commands, and `queen`. Its captures clear the whole rectangle
    between the two squares, as `remove` is written; the diagonal-only kill
    that `remove`'s documentation describes is modelled beside it (see
    Findings).
  - The alpha-beta search of `minimax.kt` (module `Minimax`).
- **The earlier engine** (`chekers_rules`):
  - `Position` (module `EarlyPosition`): squares named "a1".."h8" and
    one-step moves in the four directions.
  - `Checkerboard` (module `EarlyBoard`): fields with a colour, `place`,
    `move`, `clone` and `encodeToVector`.
  - `actions` (module `EarlyActions`): man and king captures.
  - `StepSearcher`: the capture-chain search that records `commandChains`
    (value model in `EarlySteps`, the class and its loops in
    `EarlySearcher`), and the quiet moves.
- **`InputEncoder`** (module `Encoder`): the 32 dark-square values are
  spread over an 8 × 8 board. Every square window of side 3 to 8 is cut out
  of it, giving the network's 91 inputs.
- **`MatrixDivider`** (module `Divider`): cuts a flat side × side matrix into
  strided size × size windows.

Boards are values: `seq<BoardField>` or `seq<Option<Checker>>` held in a
class field that the methods reassign. A Kotlin exception becomes a `None`
result or an `ok: bool` out-parameter. Module `Common` holds the list and
text functions the Kotlin standard library provides:
- `split` and `joinToString`;
- `filter`, `map` and `mapNotNull`;
- `takeWhile` and `flatMap`;
- decimal text.

## Model

Source cells are relative paths. `model.kt`, `MoveSearcher.kt`, `rules.kt`
and `minimax.kt` are under `checkers_rules/src/main/kotlin/`. `Position.kt`,
`Checkerboard.kt`, `actions.kt` and `StepSearcher.kt` are under
`chekers_rules/src/main/kotlin/`.

| member | source | states |
|---|---|---|
| Common.Split | checkers_rules/src/main/kotlin/rules.kt:32 | `split(sep)` keeps empty runs: the result has one part more than the text has separators, and no part holds the separator |
| Common.SplitJoin | checkers_rules/src/main/kotlin/rules.kt:32 | splitting parts joined by a separator they do not hold gives the parts back |
| Common.JoinSplit | checkers_rules/src/main/kotlin/rules.kt:32 | joining the parts of a split gives the original text back |
| Common.NatTextValue | checkers_rules/src/main/kotlin/model.kt:27-30 | the decimal text of a number reads back as that number |
| BoardModel.Index | checkers_rules/src/main/kotlin/model.kt:59-61 | the init list puts square (x, y) at place 8(y − 1) + x − 1; the place is in 0..63 |
| BoardModel.PositionOfIndex | checkers_rules/src/main/kotlin/model.kt:59-61 | the square at place k is the one Index maps to k, so the two are inverse |
| BoardModel.EmptyFields | checkers_rules/src/main/kotlin/model.kt:59-61 | a fresh board has every square once, in init order, with colour (x + y + 1) % 2 and no piece |
| BoardModel.Find | checkers_rules/src/main/kotlin/model.kt:66 | `find` returns the first field with those coordinates, or None when no field has them |
| BoardModel.FindOnLayout | checkers_rules/src/main/kotlin/model.kt:66 | on a laid-out board `find` succeeds exactly for on-board squares, at place Index |
| BoardModel.OccupantIsGet | checkers_rules/src/main/kotlin/model.kt:66-71 | `get(pos)?.checker` is the occupant of the square, and None off the board |
| BoardModel.Promoted | checkers_rules/src/main/kotlin/model.kt:105-106 | a man becomes a king when it is white on row 8 or black on row 1; any other piece is unchanged |
| BoardModel.PlaceSpec | checkers_rules/src/main/kotlin/model.kt:105-108 | None off the board (the `!!` throws); otherwise only square p changes, and it holds the piece promoted on its far row |
| BoardModel.ParsePosition | checkers_rules/src/main/kotlin/model.kt:25-50 | letters a..h give x = 1..8 and the second character gives y; None where `!!` or `toInt` throws (a short text, a bad letter or a non-digit) |
| BoardModel.PositionText | checkers_rules/src/main/kotlin/model.kt:27-30 | `toString` is the letter 'a' + x − 1 followed by y in decimal |
| BoardModel.ParsePrinted | checkers_rules/src/main/kotlin/model.kt:25-30 | printing a square with a one-digit y and parsing the text gives the square back |
| BoardModel.PrintParsed | checkers_rules/src/main/kotlin/model.kt:25-30 | a two-character name that parses prints back exactly |
| BoardModel.ParseIgnoresTail | checkers_rules/src/main/kotlin/model.kt:45-50 | parsing looks at the first two characters only |
| BoardModel.CheckersFrom | checkers_rules/src/main/kotlin/model.kt:154-155 | the positions of one colour's pieces from field k on, in field order |
| BoardModel.CheckersFromMembers | checkers_rules/src/main/kotlin/model.kt:154-155 | a square is listed exactly when it holds a piece of that colour |
| BoardModel.CheckersOf | checkers_rules/src/main/kotlin/model.kt:154-155 | `getCheckers(color)` lists the squares of that colour's pieces, each once, row by row |
| BoardModel.MoveSpec | checkers_rules/src/main/kotlin/model.kt:123-127 | defined exactly when both names parse and lie on the board; `to` then holds the former occupant of `from`, promoted; `from` is emptied when it differs from `to`; every other square is kept |
| BoardModel.ClearRect | checkers_rules/src/main/kotlin/model.kt:137-143 | the private `remove(from, to)` empties every square of the bounding rectangle of the two squares |
| BoardModel.ClearRectOccupant | checkers_rules/src/main/kotlin/model.kt:137-143 | after clearing, exactly the squares of the rectangle are empty and all others keep their pieces |
| BoardModel.RemoveSpec | checkers_rules/src/main/kotlin/model.kt:149 | `remove` on names: None where a name does not parse or leaves the board, else ClearRect |
| BoardModel.ClearSegment | checkers_rules/src/main/kotlin/model.kt:134-137 | what the documentation of `remove(from, to)` promises: exactly the squares on the diagonal through `from`, between the two squares and both included, lose their pieces; squares and colours are kept; None when a square is off the board |
| BoardModel.ClearSegmentOccupant | checkers_rules/src/main/kotlin/model.kt:145-149 | after that clearing a square is empty when it lies on the diagonal from..to and keeps its piece otherwise |
| BoardModel.CheckersBoard.constructor | checkers_rules/src/main/kotlin/model.kt:59-61 | a new board holds EmptyFields |
| BoardModel.CheckersBoard.Get | checkers_rules/src/main/kotlin/model.kt:66-71 | returns the field at the square, None off the board |
| BoardModel.CheckersBoard.GetCheckers | checkers_rules/src/main/kotlin/model.kt:154-155 | returns CheckersOf the fields |
| BoardModel.CheckersBoard.PlaceAt | checkers_rules/src/main/kotlin/model.kt:105-108 | the new fields are PlaceSpec of the old ones |
| BoardModel.CheckersBoard.Place | checkers_rules/src/main/kotlin/model.kt:113-118 | placing on a name: ok exactly when the name is placeable, and then the fields are PlaceSpec |
| BoardModel.CheckersBoard.Move | checkers_rules/src/main/kotlin/model.kt:123-127 | the new fields are MoveSpec of the old ones; ok exactly when MoveSpec is defined |
| BoardModel.CheckersBoard.RemoveRect | checkers_rules/src/main/kotlin/model.kt:137-143 | the column-by-column loop leaves the fields ClearRect gives |
| BoardModel.CheckersBoard.RemoveSegment | checkers_rules/src/main/kotlin/model.kt:137-143 | the column-by-column loop, emptying only the squares on a diagonal through `from`, leaves the fields ClearSegment gives; it fails only when `from` is off the board |
| BoardModel.CheckersBoard.ClearColumn | checkers_rules/src/main/kotlin/model.kt:142 | one column of that loop: the rows y1..y2 of column x that lie on a diagonal through `from` are emptied and every other field is kept |
| BoardModel.CheckersBoard.Remove | checkers_rules/src/main/kotlin/model.kt:149 | the new fields are RemoveSpec of the old ones |
| BoardModel.CheckersBoard.Clear | checkers_rules/src/main/kotlin/model.kt:160-162 | every field loses its piece; squares and colours are kept |
| MoveSearch.NextPosition | checkers_rules/src/main/kotlin/MoveSearcher.kt:56-61 | the square at offset (dx, dy); None exactly when it is off the board |
| MoveSearch.IsBetween | checkers_rules/src/main/kotlin/MoveSearcher.kt:96-104 | true exactly when the three squares lie pairwise on diagonals and pos.x lies between a.x and b.x, both included |
| MoveSearch.FindVictims | checkers_rules/src/main/kotlin/MoveSearcher.kt:110-113 | a man reaches the diagonal neighbours and a king every square on a shared diagonal; list order is kept |
| MoveSearch.IsCheckersBetweenIff | checkers_rules/src/main/kotlin/MoveSearcher.kt:115-127 | for two squares on one diagonal, `isCheckersBetween` holds exactly when a square strictly between them is occupied |
| MoveSearch.IsCheckersBetween | checkers_rules/src/main/kotlin/MoveSearcher.kt:115-127 | the walk from a towards b; no contract of its own, IsCheckersBetweenIff states what it decides |
| MoveSearch.Move.ToList | checkers_rules/src/main/kotlin/MoveSearcher.kt:15-28 | the link-walking loop returns Path: the chain's squares from the root to this step |
| MoveSearch.PathUnwind | checkers_rules/src/main/kotlin/MoveSearcher.kt:19-25 | one turn of the walk keeps path = remaining links + reversed list |
| MoveSearch.Path | checkers_rules/src/main/kotlin/MoveSearcher.kt:15-28 | a chain's squares end with its last landing square |
| MoveSearch.KilledUnwind | checkers_rules/src/main/kotlin/MoveSearcher.kt:135-143 | one turn of `getKilledInMove`'s loop moves this step's victim onto the list and leaves the earlier steps' victims to come |
| MoveSearch.Killed | checkers_rules/src/main/kotlin/MoveSearcher.kt:135-143 | the victims of a chain, latest first; no contract of its own, KilledIsCapturedReversed relates it to the chain's captures |
| MoveSearch.After | checkers_rules/src/main/kotlin/MoveSearcher.kt:148-154 | the square just beyond v, seen from k, along their diagonal |
| MoveSearch.Before | checkers_rules/src/main/kotlin/MoveSearcher.kt:148-155 | the square just before v, seen from k |
| MoveSearch.NearbyVictims | checkers_rules/src/main/kotlin/MoveSearcher.kt:145-161 | a victim is kept exactly when it is in reach, not yet taken, the square after it is free or the start square, and the square before it is free or k itself |
| MoveSearch.KingLandingsBeyond | checkers_rules/src/main/kotlin/MoveSearcher.kt:83-93 | a king's landings are all the on-board squares beyond the victim, nearest first |
| MoveSearch.ManLandings | checkers_rules/src/main/kotlin/MoveSearcher.kt:77-82 | a man lands only two squares from k through v, and only on the start square or a free on-board square |
| MoveSearch.FindNextPositions | checkers_rules/src/main/kotlin/MoveSearcher.kt:74-94 | the landings for victim v; no contract of its own, ManLandings, KingLandingsBeyond and LandingBeyond state them |
| MoveSearch.StepMoves | checkers_rules/src/main/kotlin/MoveSearcher.kt:174-184 | the steps for one victim: none when a taken piece lies between; else landings up to an own piece, the attacking ones preferred, those past a taken piece dropped |
| MoveSearch.StepMovesLandings | checkers_rules/src/main/kotlin/MoveSearcher.kt:176-183 | every step lands on an open landing not past a taken piece; when any landing attacks, only attacking landings are offered |
| MoveSearch.NextStepMoves | checkers_rules/src/main/kotlin/MoveSearcher.kt:174-184 | `nextMoves` is the victims' step lists, concatenated in order |
| MoveSearch.NextStepMovesMembers | checkers_rules/src/main/kotlin/MoveSearcher.kt:174-184 | every step offered continues the chain by taking one of the victims, as that victim's list offers it |
| MoveSearch.UnblockedVictims | checkers_rules/src/main/kotlin/MoveSearcher.kt:172 | the nearby victims with no piece between the killer and them |
| MoveSearch.LoopVictims | checkers_rules/src/main/kotlin/MoveSearcher.kt:170-172 | the `nearbyVictims` of one loop turn, computed from the chain's taken pieces |
| MoveSearch.KillerMovesFromUnfold | checkers_rules/src/main/kotlin/MoveSearcher.kt:163-195 | one turn of the search: the chain itself when no step is possible, else its branches |
| MoveSearch.KillerMovesFrom | checkers_rules/src/main/kotlin/MoveSearcher.kt:163-195 | the recursive capture search as a value: the chains appended and the killer type left behind; no contract of its own, KillerMovesFromOk and KillerMovesFromStops state what it finds |
| MoveSearch.SearchStops | checkers_rules/src/main/kotlin/MoveSearcher.kt:173-194 | with no victim or no step, the search appends the chain itself and the killer type stays |
| MoveSearch.SearchSteps | checkers_rules/src/main/kotlin/MoveSearcher.kt:174-184 | every step takes a victim still on the board, so fewer remain, which ends the search |
| MoveSearch.SearchBranches | checkers_rules/src/main/kotlin/MoveSearcher.kt:186-190 | with several steps, each is searched as a branch, in order |
| MoveSearch.SearchFollows | checkers_rules/src/main/kotlin/MoveSearcher.kt:192 | with a single step, the search follows it |
| MoveSearch.KillerMovesFromOk | checkers_rules/src/main/kotlin/MoveSearcher.kt:163-195 | the search appends at least one chain; each continues the chain it started from and is well formed; the start chain is among them exactly when no step is possible |
| MoveSearch.KillerMovesFromStops | checkers_rules/src/main/kotlin/MoveSearcher.kt:163-195 | from every chain appended, no further step is possible |
| MoveSearch.ChainPath | checkers_rules/src/main/kotlin/MoveSearcher.kt:15-28 | a well-formed chain has one square more than captures, all on the board |
| MoveSearch.ChainVictims | checkers_rules/src/main/kotlin/MoveSearcher.kt:145-146 | the captures of a well-formed chain are distinct opposing pieces |
| MoveSearch.KilledIsCapturedReversed | checkers_rules/src/main/kotlin/MoveSearcher.kt:135-143 | `getKilledInMove` lists the captures latest first: the chain's capture order reversed |
| MoveSearch.ChainSteps | checkers_rules/src/main/kotlin/MoveSearcher.kt:174-184 | the i-th capture lies on a diagonal through the i-th square and the next square lies beyond it |
| MoveSearch.LandingBeyond | checkers_rules/src/main/kotlin/MoveSearcher.kt:74-94 | every landing for a victim in reach is on the board, beyond the victim |
| MoveSearch.StepMovesOk | checkers_rules/src/main/kotlin/MoveSearcher.kt:174-184 | every step offered for an eligible victim turns a well-formed chain into a well-formed chain |
| Searcher.MoveSearcher.constructor | checkers_rules/src/main/kotlin/MoveSearcher.kt:5-8 | the searcher holds the colour and the board, with killer type 0 and no victims |
| Searcher.MoveSearcher.GetKilledInMove | checkers_rules/src/main/kotlin/MoveSearcher.kt:135-143 | the loop returns the chain's victims, latest first |
| Searcher.MoveSearcher.CollectKillerMoves | checkers_rules/src/main/kotlin/MoveSearcher.kt:163-195 | appends what the search from the chain yields; leaves killerType as the search leaves it; the board is unchanged |
| Searcher.MoveSearcher.CollectEach | checkers_rules/src/main/kotlin/MoveSearcher.kt:186-190 | the branch loop appends each branch's chains in turn, with killerType threaded from branch to branch |
| Searcher.MoveSearcher.GetKillerMoves | checkers_rules/src/main/kotlin/MoveSearcher.kt:197-201 | returns the chains the search finds from a lone piece on the square |
| Searcher.MoveSearcher.SearchPiece | checkers_rules/src/main/kotlin/MoveSearcher.kt:39-41 | aims the search at the piece on k with that piece's own kind, and returns its chains |
| Searcher.MoveSearcher.PieceCapture | checkers_rules/src/main/kotlin/MoveSearcher.kt:38-46 | returns the piece's FirstCapture: the squares of its first chain when that chain has taken something |
| Searcher.MoveSearcher.NextMoves | checkers_rules/src/main/kotlin/MoveSearcher.kt:34-54 | the capture strings when some piece can take, else the slide strings |
| Searcher.MoveSearcher.CaptureMoves | checkers_rules/src/main/kotlin/MoveSearcher.kt:38-47 | the `mapNotNull` loop returns CaptureList of the mover's pieces |
| MoveList.KingSlide | checkers_rules/src/main/kotlin/MoveSearcher.kt:69-70 | the `takeWhile` prefix of a king's ray |
| MoveList.KingSlideIff | checkers_rules/src/main/kotlin/MoveSearcher.kt:68-71 | a square is in a king's slide exactly when it is reached along the ray over empty squares only |
| MoveList.KingSlideRay | checkers_rules/src/main/kotlin/MoveSearcher.kt:68-71 | the slide is a prefix of the ray, all empty, stopping at a piece or at the edge |
| MoveList.ManSlides | checkers_rules/src/main/kotlin/MoveSearcher.kt:64-67 | a man slides exactly to the empty on-board squares diagonally in front of it |
| MoveList.KingSlides | checkers_rules/src/main/kotlin/MoveSearcher.kt:68-71 | a king slides exactly to the squares it reaches along some diagonal over empty squares |
| MoveList.SlidesFree | checkers_rules/src/main/kotlin/MoveSearcher.kt:63-72 | every slide target is on the board and empty |
| MoveList.FindMoveWay | checkers_rules/src/main/kotlin/MoveSearcher.kt:63-72 | `findMoveWay`: None on an empty square, else the man's or the king's slides; no contract of its own, ManSlides, KingSlides and SlidesFree state its targets |
| MoveList.FirstChain | checkers_rules/src/main/kotlin/MoveSearcher.kt:41-45 | the first chain found from a lone piece is well formed from p, and longer than p alone exactly when a first step is possible |
| MoveList.FirstCapture | checkers_rules/src/main/kotlin/MoveSearcher.kt:38-46 | what `nextMoves` keeps of a piece: the squares of the first chain only, when longer than one square |
| MoveList.FirstCaptureIff | checkers_rules/src/main/kotlin/MoveSearcher.kt:38-46 | a piece has a capture exactly when the search can take a first step from it |
| MoveList.FirstCaptureChain | checkers_rules/src/main/kotlin/MoveSearcher.kt:38-46 | a reported capture is the path of a well-formed chain |
| MoveList.FirstCaptureOfChains | checkers_rules/src/main/kotlin/MoveSearcher.kt:41-45 | FirstCapture is the first chain's squares when it has more than one |
| MoveList.Texts | checkers_rules/src/main/kotlin/MoveSearcher.kt:47-51 | `map { it.toString() }` keeps length and order |
| MoveList.CaptureText | checkers_rules/src/main/kotlin/MoveSearcher.kt:47 | a capture as `nextMoves` writes it; no contract of its own, CaptureTextRoundTrip is its inverse |
| MoveList.SlideText | checkers_rules/src/main/kotlin/MoveSearcher.kt:51 | a slide as `nextMoves` writes it; no contract of its own, SlideTextRoundTrip is its inverse |
| MoveList.CaptureTextRoundTrip | checkers_rules/src/main/kotlin/MoveSearcher.kt:47 | splitting a capture string at ':' and parsing each part gives the chain's squares back |
| MoveList.SlideTextRoundTrip | checkers_rules/src/main/kotlin/MoveSearcher.kt:51 | splitting a slide string at '-' and parsing both parts gives the two squares back |
| MoveList.CaptureList | checkers_rules/src/main/kotlin/MoveSearcher.kt:38-47 | the capture strings of the pieces, in board order |
| MoveList.CapturesOfPieces | checkers_rules/src/main/kotlin/MoveSearcher.kt:38-47 | one capture string per piece that has a capture: its first chain joined by ':' |
| MoveList.NoCapturesOfPieces | checkers_rules/src/main/kotlin/MoveSearcher.kt:38-48 | there is no capture string exactly when no piece can take a first step |
| MoveList.ScanDone | checkers_rules/src/main/kotlin/MoveSearcher.kt:38-47 | the finished scan's moves are CaptureList of all the pieces |
| MoveList.SlidesOverMembers | checkers_rules/src/main/kotlin/MoveSearcher.kt:49-51 | the slide strings are exactly "from-to" for each piece and each square it may slide to |
| MoveList.CaptureTextsMembers | checkers_rules/src/main/kotlin/MoveSearcher.kt:38-47 | the capture strings are exactly the ':'-joined paths that are present |
| MoveList.NextMovesSpec | checkers_rules/src/main/kotlin/MoveSearcher.kt:34-54 | `nextMoves` as a value: the capture strings when there are any, else the slide strings; no contract of its own, NextMovesCaptures and NextMovesSlides state what it holds |
| MoveList.NextMovesCaptures | checkers_rules/src/main/kotlin/MoveSearcher.kt:34-54 | capture is compulsory: when some piece can capture, only the capture strings are offered |
| MoveList.NextMovesSlides | checkers_rules/src/main/kotlin/MoveSearcher.kt:48-52 | when no piece can capture, the moves are exactly the slides |
| Rules.PlaceNamed | checkers_rules/src/main/kotlin/model.kt:118 | placing on a name; None where the name does not parse or leaves the board |
| Rules.PlaceAll | checkers_rules/src/main/kotlin/rules.kt:53-54 | one `forEach` placing a new man of the colour on each named square in turn |
| Rules.PlaceAllOccupant | checkers_rules/src/main/kotlin/rules.kt:53-54 | succeeds exactly when every name is placeable; named squares then hold a man of the colour (a king on its far row) and all other squares are kept |
| Rules.InitSpec | checkers_rules/src/main/kotlin/rules.kt:51-55 | clear, then the white men, then the black men |
| Rules.WhiteStart | checkers_rules/src/main/kotlin/rules.kt:5 | the twelve white start squares; no contract of its own, WhiteStartSquares states which they are |
| Rules.BlackStart | checkers_rules/src/main/kotlin/rules.kt:6 | the twelve black start squares; no contract of its own, BlackStartSquares states which they are |
| Rules.WhiteStartSquares | checkers_rules/src/main/kotlin/rules.kt:5 | the white list names exactly the dark squares of rows 1 to 3 |
| Rules.BlackStartSquares | checkers_rules/src/main/kotlin/rules.kt:6 | the black list names exactly the dark squares of rows 6 to 8 |
| Rules.StartPlaceable | checkers_rules/src/main/kotlin/rules.kt:5-7 | both starting lists can be placed |
| Rules.InitialPosition | checkers_rules/src/main/kotlin/rules.kt:3-8 | a new game has twelve white men on the dark squares of rows 1–3, twelve black men on those of rows 6–8, and nothing else |
| Rules.KillSpec | checkers_rules/src/main/kotlin/rules.kt:16-20 | the private `kill` as written: take the piece on `from`, clear the whole rectangle from..to with `board.remove`, then place the piece on `to`; None where a name fails (its effect is stated by KillFails and KillEffect) |
| Rules.ClearThenPlace | checkers_rules/src/main/kotlin/rules.kt:18-19 | `board.remove` on the rectangle, then `board.place`; defined exactly when both names parse to on-board squares |
| Rules.KillFails | checkers_rules/src/main/kotlin/rules.kt:16-20 | a kill fails exactly when one of the names does not parse or leaves the board |
| Rules.KillEffect | checkers_rules/src/main/kotlin/rules.kt:16-20 | the piece arrives on `to` (promoted on its far row), every other square of the rectangle from..to is emptied, and every square outside it keeps its piece |
| Rules.KillClearsCorner | checkers_rules/src/main/kotlin/model.kt:137-143 | a kill between two squares of one diagonal also empties the rectangle corner in the column of `from` and the row of `to`, which is off that diagonal |
| Rules.KillG5E7ClearsG7 | checkers_rules/src/main/kotlin/rules.kt:16-20 | the kill g5→e7 empties g7 on every board, whatever stood there |
| Rules.KillAlongDiagonal | checkers_rules/src/main/kotlin/model.kt:134-136 | the kill as the documentation of `remove` describes it: take the piece on `from`, empty only the diagonal from..to, place the piece on `to`; defined exactly when both names parse to on-board squares |
| Rules.ClearDiagonalThenPlace | checkers_rules/src/main/kotlin/model.kt:145-149 | the diagonal from f to `to` emptied, then the piece placed; defined exactly when f and `to` are on the board |
| Rules.KillAlongDiagonalEffect | checkers_rules/src/main/kotlin/model.kt:134-136 | the diagonal kill puts the piece (promoted) on `to`, empties the other squares of the diagonal from..to, and keeps every other square, in the rectangle or not |
| Rules.KillAlongDiagonalKeepsG7 | checkers_rules/src/main/kotlin/model.kt:145-146 | the diagonal kill g5→e7 leaves g7 as it was on every board |
| Rules.KillChain | checkers_rules/src/main/kotlin/rules.kt:32-37 | kills along consecutive pairs of the positions, stopping at the first failure |
| Rules.KillChainPlaceable | checkers_rules/src/main/kotlin/rules.kt:32-37 | a chain of placeable names never fails |
| Rules.GoSpec | checkers_rules/src/main/kotlin/rules.kt:22-39 | a slide command moves one piece (the private `move` at lines 12-14); a capture command kills along its ':' parts; anything else changes nothing |
| Rules.QueenSpec | checkers_rules/src/main/kotlin/rules.kt:44-46 | the piece on pos becomes a king; an empty or off-board square is left alone; None where the name does not parse |
| Rules.QueenCrowns | checkers_rules/src/main/kotlin/rules.kt:44-46 | crowning keeps the colour, sets the king kind and touches no other square |
| Rules.JoinedNamesCommand | checkers_rules/src/main/kotlin/rules.kt:24-32 | two or more square names joined by ':' match the kill template and split back into those names |
| Rules.CaptureTextCommand | checkers_rules/src/main/kotlin/rules.kt:24-32 | a capture string is a kill command whose parts name its path |
| Rules.CaptureAccepted | checkers_rules/src/main/kotlin/rules.kt:31-38 | a capture string makes `go` perform the kills along its path, and they never fail |
| Rules.GoSingleCapture | checkers_rules/src/main/kotlin/rules.kt:31-38 | `go` on a one-step capture "a:b" succeeds; the piece of a stands (promoted) on b, the rest of the rectangle a..b is emptied and every square outside it is kept |
| Rules.GoCaptureSplit | checkers_rules/src/main/kotlin/rules.kt:33-37 | `go` on a capture of several steps equals `go` on its first step followed by `go` on the rest of the path from the landing square |
| Rules.SlideAccepted | checkers_rules/src/main/kotlin/rules.kt:23-30 | a slide string makes `go` empty the source and put its piece (promoted) on the target |
| Rules.GeneratedMovesAccepted | checkers_rules/src/main/kotlin/rules.kt:22-57 | every move `nextMoves` offers is a command `go` carries out without failing |
| Rules.Game.constructor | checkers_rules/src/main/kotlin/rules.kt:1-8 | colour 0 to move and both sides on their starting squares |
| Rules.Game.PlaceMen | checkers_rules/src/main/kotlin/rules.kt:53-54 | the loop leaves the board PlaceAll gives |
| Rules.Game.Init | checkers_rules/src/main/kotlin/rules.kt:51-55 | the board becomes InitSpec of the lists |
| Rules.Game.Kill | checkers_rules/src/main/kotlin/rules.kt:16-20 | the board becomes KillSpec: the piece taken from `from` lands on `to` and the whole rectangle between them is emptied |
| Rules.Game.ClearAndPlace | checkers_rules/src/main/kotlin/rules.kt:18-19 | `board.remove` then `board.place`: the board becomes ClearThenPlace |
| Rules.Game.KillOnDiagonal | checkers_rules/src/main/kotlin/model.kt:145-149 | the diagonal kill on the game's board: it succeeds exactly when KillAlongDiagonal is defined, and the board becomes its result |
| Rules.Game.ClearDiagonalAndPlace | checkers_rules/src/main/kotlin/model.kt:145-149 | RemoveSegment from f to the named square, then `place`: the board becomes ClearDiagonalThenPlace |
| Rules.Game.Go | checkers_rules/src/main/kotlin/rules.kt:22-39 | the board becomes GoSpec of the command |
| Rules.Game.Queen | checkers_rules/src/main/kotlin/rules.kt:44-46 | the board becomes QueenSpec |
| Rules.Game.NextMoves | checkers_rules/src/main/kotlin/rules.kt:57 | the moves the searcher offers to the colour to move; the board is unchanged |
| Minimax.Material | checkers_rules/src/main/kotlin/minimax.kt:21-23 | a side's men plus three for each king |
| Minimax.H | checkers_rules/src/main/kotlin/minimax.kt:20-26 | the agent's material minus the other side's, within ±256 |
| Minimax.Value | checkers_rules/src/main/kotlin/minimax.kt:28-31 | `value(color)`; no contract of its own, ValueFromOwnSide states it |
| Minimax.ValueFromOwnSide | checkers_rules/src/main/kotlin/minimax.kt:28-31 | `value(color)`, h for the agent and −h for the other side, equals h measured from that colour's own side, and h is zero-sum between the sides |
| Minimax.RootNode | checkers_rules/src/main/kotlin/minimax.kt:6-7 | a node without a parent has level 0 |
| Minimax.Children | checkers_rules/src/main/kotlin/minimax.kt:11-14 | children are one level deeper, with the other colour to move |
| Minimax.ChildrenOf | checkers_rules/src/main/kotlin/minimax.kt:13-19 | one child per move |
| Minimax.ChildrenOfFollow | checkers_rules/src/main/kotlin/minimax.kt:13-19 | child i records move i and holds the board `go(move i)` leaves on a copy |
| Minimax.ChildrenFollowMoves | checkers_rules/src/main/kotlin/minimax.kt:11-19 | a node has one child per offered move, in order, each holding the board its move leads to |
| Minimax.Expand | checkers_rules/src/main/kotlin/minimax.kt:46 | a tree node is terminal exactly at level 6 and has no children there; its h is the node's h |
| Minimax.MaxT | checkers_rules/src/main/kotlin/minimax.kt:48-60 | plain minimax at a node the agent moves from, the reference MaxValue is proved against: h when terminal, else the largest child MinT, −1000 with no child |
| Minimax.MinT | checkers_rules/src/main/kotlin/minimax.kt:62-74 | plain minimax at a node the opponent moves from: h when terminal, else the smallest child MaxT, 1000 with no child |
| Minimax.TreeValuesBounded | checkers_rules/src/main/kotlin/minimax.kt:52-66 | minimax values stay in [−1000, 1000] |
| Minimax.MaxScanStep | checkers_rules/src/main/kotlin/minimax.kt:53-57 | one child that does not cut off keeps the loop's window invariant |
| Minimax.MaxScanCut | checkers_rules/src/main/kotlin/minimax.kt:56 | a child whose answer exceeds beta lifts the node's value above beta too |
| Minimax.MaxValue | checkers_rules/src/main/kotlin/minimax.kt:48-60 | fail-soft alpha-beta: the answer is the true minimax value inside the window and a bound on it outside; in the full window the stored child values pick out exactly the optimal children |
| Minimax.MinScanStep | checkers_rules/src/main/kotlin/minimax.kt:67-71 | one child of `minValue` that does not cut off keeps the window invariant |
| Minimax.MinScanCut | checkers_rules/src/main/kotlin/minimax.kt:70 | a child whose answer is below alpha drops the node's value below alpha |
| Minimax.MinValue | checkers_rules/src/main/kotlin/minimax.kt:62-74 | the mirror image of MaxValue for the minimising side |
| Minimax.Chosen | checkers_rules/src/main/kotlin/minimax.kt:41 | `filter { it.value == v }`: the children whose value equals v, in order |
| Minimax.BestChildExists | checkers_rules/src/main/kotlin/minimax.kt:41-43 | a non-terminal node with children has a child of optimal value |
| Minimax.ChoiceIsOptimal | checkers_rules/src/main/kotlin/minimax.kt:39-43 | the filter selects exactly the children of optimal value, and at least one when there is a child |
| Minimax.AlphaBetaSearch | checkers_rules/src/main/kotlin/minimax.kt:37-44 | returns null exactly when no move is offered, else the children whose minimax value is optimal |
| EarlyPosition.LetterIndex | chekers_rules/src/main/kotlin/Position.kt:2 | `indexOf`: the letter's place among a..h, −1 when it is none of them |
| EarlyPosition.NewPosition | chekers_rules/src/main/kotlin/Position.kt:1-3 | None where `substring` or `toInt` throws; otherwise col is the letter's index and row is the digit minus one |
| EarlyPosition.ValidInRange | chekers_rules/src/main/kotlin/Position.kt:1-3 | a built position with a known letter and a digit 1..8 is in range |
| EarlyPosition.At | chekers_rules/src/main/kotlin/Position.kt:8 | the col-th letter followed by row + 1 |
| EarlyPosition.AtValid | chekers_rules/src/main/kotlin/Position.kt:1-8 | parsing At's text gives back that column and row |
| EarlyPosition.NameOfPlace | chekers_rules/src/main/kotlin/Position.kt:1-8 | a two-character name with a file letter is At of its column and row |
| EarlyPosition.SamePlaceIsSameName | chekers_rules/src/main/kotlin/Position.kt:39-49 | `equals` compares col and row; for such names that is equality of the texts |
| EarlyPosition.LeftAndUp | chekers_rules/src/main/kotlin/Position.kt:10-13 | the neighbour one column left and one row up; None at the edge |
| EarlyPosition.RightAndUp | chekers_rules/src/main/kotlin/Position.kt:15-18 | the neighbour right and up; None at the edge |
| EarlyPosition.LeftAndDown | chekers_rules/src/main/kotlin/Position.kt:20-23 | the neighbour left and down; None at the edge |
| EarlyPosition.RightAndDown | chekers_rules/src/main/kotlin/Position.kt:25-28 | the neighbour right and down; None at the edge |
| EarlyPosition.MoveByDirection | chekers_rules/src/main/kotlin/Position.kt:30-37 | one step in the direction; None exactly when the neighbour is off the board |
| EarlyPosition.Ray | chekers_rules/src/main/kotlin/StepSearcher.kt:132-142 | the squares from p to the edge in one direction, nearest first |
| EarlyPosition.RayEnd | chekers_rules/src/main/kotlin/StepSearcher.kt:135-140 | one step past a ray's last square leaves the board |
| EarlyPosition.RayNext | chekers_rules/src/main/kotlin/Position.kt:30-37 | the step after a ray's k-th square is its next square, or off the board at the end |
| EarlyPosition.RayDistinct | chekers_rules/src/main/kotlin/StepSearcher.kt:132-142 | the squares of a ray are pairwise different |
| EarlyBoard.FieldIndex | chekers_rules/src/main/kotlin/Checkerboard.kt:87-89 | square (col, row) is read at field 8(7 − row) + col |
| EarlyBoard.FieldPosition | chekers_rules/src/main/kotlin/Checkerboard.kt:2-7 | field k is the square of the x-th letter and rank 9 − y; FieldIndex inverts it |
| EarlyBoard.DarkField | chekers_rules/src/main/kotlin/Checkerboard.kt:5 | a field has colour 1 (dark) exactly when (x + y) is odd |
| EarlyBoard.FieldOfSquare | chekers_rules/src/main/kotlin/Checkerboard.kt:87-89 | `getField(p)` is the field whose square equals p |
| EarlyBoard.DarkSquareAt | chekers_rules/src/main/kotlin/Checkerboard.kt:2-7 | square (col, row) is dark when col + row is even |
| EarlyBoard.Placed | chekers_rules/src/main/kotlin/Checkerboard.kt:91-99 | only field k changes, to the new occupant |
| EarlyBoard.Moved | chekers_rules/src/main/kotlin/Checkerboard.kt:109-117 | `from` is emptied and `to` gets its former occupant; nothing else changes |
| EarlyBoard.Cloned | chekers_rules/src/main/kotlin/Checkerboard.kt:43-55 | same colours and ids on the same fields, but every copy is a man: the queen flag is not copied |
| EarlyBoard.ClonedFacts | chekers_rules/src/main/kotlin/Checkerboard.kt:43-55 | a clone holds as many pieces, and cloning a clone changes nothing |
| EarlyBoard.CheckersFrom | chekers_rules/src/main/kotlin/Checkerboard.kt:39-41 | one colour's checkers with their squares from field k on, in board order |
| EarlyBoard.CheckersFromComplete | chekers_rules/src/main/kotlin/Checkerboard.kt:39-41 | every checker of the colour is listed |
| EarlyBoard.PieceCode | chekers_rules/src/main/kotlin/Checkerboard.kt:122-129 | 0 when empty, 1 for white and −1 for black, times 3 for a queen |
| EarlyBoard.DarkFrom | chekers_rules/src/main/kotlin/Checkerboard.kt:121 | the dark fields from k on, in board order |
| EarlyBoard.DarkCount | chekers_rules/src/main/kotlin/Checkerboard.kt:121 | the board has 32 dark fields |
| EarlyBoard.Encode | chekers_rules/src/main/kotlin/Checkerboard.kt:121-130 | 32 entries; entry j encodes the occupant of the j-th dark field |
| EarlyBoard.EncodeCoversDark | chekers_rules/src/main/kotlin/Checkerboard.kt:121-130 | every dark field has its entry in the vector |
| EarlyBoard.StartCells | chekers_rules/src/main/kotlin/Checkerboard.kt:10-23 | the fields `create()` sets up, in board order |
| EarlyBoard.StartCellFacts | chekers_rules/src/main/kotlin/Checkerboard.kt:10-23 | white men stand exactly on the dark squares of ranks 1–3, black men on those of ranks 6–8, and every id is used once |
| EarlyBoard.CountUpdate | chekers_rules/src/main/kotlin/Checkerboard.kt:91-99 | replacing one occupant changes the piece count by what leaves and what arrives |
| EarlyBoard.Checkerboard.constructor | chekers_rules/src/main/kotlin/Checkerboard.kt:1-7 | a new board has 64 empty fields |
| EarlyBoard.Checkerboard.FromCells | chekers_rules/src/main/kotlin/Checkerboard.kt:1-2 | a board over the given fields |
| EarlyBoard.Checkerboard.GetField | chekers_rules/src/main/kotlin/Checkerboard.kt:85-89 | the field of the square; None off the board, where the source throws |
| EarlyBoard.Checkerboard.GetCheckers | chekers_rules/src/main/kotlin/Checkerboard.kt:39-41 | one colour's checkers in board order |
| EarlyBoard.Checkerboard.EncodeToVector | chekers_rules/src/main/kotlin/Checkerboard.kt:121-130 | returns Encode of the fields |
| EarlyBoard.Checkerboard.Place | chekers_rules/src/main/kotlin/Checkerboard.kt:91-99 | refused on a light field or when a piece meets a piece; otherwise the field gets the occupant; fails where the name is malformed |
| EarlyBoard.Checkerboard.Remove | chekers_rules/src/main/kotlin/Checkerboard.kt:101-107 | empties a dark field and leaves a light one alone |
| EarlyBoard.Checkerboard.Move | chekers_rules/src/main/kotlin/Checkerboard.kt:109-119 | the fields become Moved and the checker moved is returned; fails on an empty `from` or a bad name |
| EarlyBoard.Checkerboard.Clone | chekers_rules/src/main/kotlin/Checkerboard.kt:43-55 | a fresh board holding Cloned of the fields |
| EarlyBoard.Checkerboard.PlaceChecker | chekers_rules/src/main/kotlin/Checkerboard.kt:12-17 | a new man with the next id is offered to an empty square: it lands when the square is dark, and nothing changes on a light one |
| EarlyBoard.Checkerboard.Create | chekers_rules/src/main/kotlin/Checkerboard.kt:10-23 | a fresh board holding StartCells, with 48 ids used |
| EarlyActions.ParseCommand | chekers_rules/src/main/kotlin/actions.kt:46-51 | the squares the first two ':' fields name; None where the source throws |
| EarlyActions.ParseCommandText | chekers_rules/src/main/kotlin/actions.kt:46-51 | parsing "from:to" gives the two squares back |
| EarlyActions.TestQueen | chekers_rules/src/main/kotlin/actions.kt:40-44 | a man becomes a queen on its far rank (row 7 for white, row 0 for black); a queen stays one |
| EarlyActions.Midpoint | chekers_rules/src/main/kotlin/actions.kt:11 | the square halfway between, with integer division |
| EarlyActions.KillByCheckerSpec | chekers_rules/src/main/kotlin/actions.kt:8-13 | the man moves to `to`, is crowned there on its far rank, and the square halfway is emptied |
| EarlyActions.KillByCheckerEffect | chekers_rules/src/main/kotlin/actions.kt:8-13 | only `from`, `to` and the halfway square change |
| EarlyActions.Walk | chekers_rules/src/main/kotlin/actions.kt:32-34 | the do-while walk stops at the first occupied square after p; None where `!!` throws at the edge |
| EarlyActions.WalkFindsFirst | chekers_rules/src/main/kotlin/actions.kt:32-34 | the walk stops at the first occupied square of the ray, and fails when the ray is empty of pieces |
| EarlyActions.FirstOccupied | chekers_rules/src/main/kotlin/actions.kt:32-34 | the place of the first occupied square of a list, −1 when all are empty |
| EarlyActions.KillByQueenSpec | chekers_rules/src/main/kotlin/actions.kt:20-38 | the checker moves to `to` as a queen, then the first occupied square walking from `from` towards `to` is emptied |
| EarlyActions.QueenMoved | chekers_rules/src/main/kotlin/actions.kt:23 | the fields after the queen's move, before the removal |
| EarlyActions.KillByQueenEffect | chekers_rules/src/main/kotlin/actions.kt:20-38 | only `from`, `to` and the walk's stopping square change |
| EarlyActions.KillByQueenCommandSpec | chekers_rules/src/main/kotlin/actions.kt:15-18 | parse, then the queen's capture |
| EarlyActions.KillByQueenOfCommand | chekers_rules/src/main/kotlin/actions.kt:15-18 | the text of two squares is carried out as the queen's capture between them |
| EarlyActions.KillOfCommand | chekers_rules/src/main/kotlin/actions.kt:2-6 | `kill` is a queen capture exactly when a queen stands on `from` |
| EarlyActions.KillOnClone | chekers_rules/src/main/kotlin/actions.kt:2-6 | on a cloned board, where no piece is a queen, every kill is a man's capture |
| EarlyActions.KillByChecker | chekers_rules/src/main/kotlin/actions.kt:8-13 | the board becomes KillByCheckerSpec |
| EarlyActions.KillByQueen | chekers_rules/src/main/kotlin/actions.kt:20-38 | the do-while loop leaves the board KillByQueenSpec gives |
| EarlyActions.KillByQueenCommand | chekers_rules/src/main/kotlin/actions.kt:15-18 | the board becomes KillByQueenCommandSpec |
| EarlyActions.KillSpec | chekers_rules/src/main/kotlin/actions.kt:2-6 | `kill(board, command)` as a value: a queen capture when a queen stands on `from`, else a man's; no contract of its own, KillOfCommand and KillOnClone state which |
| EarlyActions.Kill | chekers_rules/src/main/kotlin/actions.kt:2-6 | dispatches on the queen flag of `from`; fails on a malformed command or nobody on `from` |
| EarlySteps.ManJumpIn | chekers_rules/src/main/kotlin/StepSearcher.kt:45-51 | one direction: an opposing neighbour with an empty on-board square behind it |
| EarlySteps.ManJumpsSound | chekers_rules/src/main/kotlin/StepSearcher.kt:41-54 | every capture found is the man's legal short capture in its direction |
| EarlySteps.ManJumpsComplete | chekers_rules/src/main/kotlin/StepSearcher.kt:44-52 | a capture in one of the first n directions is found by the scan over them |
| EarlySteps.ManJumps | chekers_rules/src/main/kotlin/StepSearcher.kt:41-55 | the man's captures in the first n directions; no contract of its own, ManJumpsSound, ManJumpsComplete and ManJumpsExact state them |
| EarlySteps.ManJumpsExact | chekers_rules/src/main/kotlin/StepSearcher.kt:41-54 | a capture is listed exactly when it is a legal short capture |
| EarlySteps.CaptureCount | chekers_rules/src/main/kotlin/actions.kt:8-38 | a capture removes exactly one piece and keeps all pieces on dark fields |
| EarlySteps.ManKill | chekers_rules/src/main/kotlin/actions.kt:8-13 | a man's capture given by its command takes exactly its victim |
| EarlySteps.QueenKill | chekers_rules/src/main/kotlin/actions.kt:20-38 | a queen's capture takes exactly its victim: the walk stops there |
| EarlySteps.LaneOf | chekers_rules/src/main/kotlin/StepSearcher.kt:87-97 | a diagonal that passes `hasVictimForQueen` has a lane: its first piece, an enemy, and the empty run behind it |
| EarlySteps.LaneUnique | chekers_rules/src/main/kotlin/StepSearcher.kt:87-97 | a diagonal with a lane passes `hasVictimForQueen`, and the lane is the one LaneOf gives |
| EarlySteps.LaneJump | chekers_rules/src/main/kotlin/StepSearcher.kt:59-66 | landing on any square of a lane's empty run is a legal capture |
| EarlySteps.Trial | chekers_rules/src/main/kotlin/StepSearcher.kt:72-75 | a trial board: a clone with the victim removed and the queen moved to the landing |
| EarlySteps.TrialFacts | chekers_rules/src/main/kotlin/StepSearcher.kt:72-75 | a trial board holds one piece fewer, all on dark fields, with the queen on the landing square |
| EarlySteps.QueenAttacks | chekers_rules/src/main/kotlin/StepSearcher.kt:71-78 | the landings after which the queen can capture again, in order |
| EarlySteps.QueenAttacksHas | chekers_rules/src/main/kotlin/StepSearcher.kt:71-78 | a landing is kept exactly when the queen can capture again from it |
| EarlySteps.QueenDiagonalPrefersAttack | chekers_rules/src/main/kotlin/StepSearcher.kt:67-82 | when some landing lets the queen capture again, a landing is listed exactly when it does |
| EarlySteps.QueenDiagonalAll | chekers_rules/src/main/kotlin/StepSearcher.kt:67-82 | when no landing does, every landing is listed |
| EarlySteps.QueenDiagonalLandings | chekers_rules/src/main/kotlin/StepSearcher.kt:59-82 | every capture listed lands on the lane's empty run |
| EarlySteps.QueenDirSound | chekers_rules/src/main/kotlin/StepSearcher.kt:56-85 | every capture listed along one diagonal is legal |
| EarlySteps.QueenDirLane | chekers_rules/src/main/kotlin/StepSearcher.kt:59-82 | a diagonal with a lane offers what QueenDiagonal lists for that lane |
| EarlySteps.QueenDirNone | chekers_rules/src/main/kotlin/StepSearcher.kt:59 | a diagonal that fails `hasVictimForQueen` offers nothing |
| EarlySteps.QueenJumpsSound | chekers_rules/src/main/kotlin/StepSearcher.kt:56-85 | `findKillMovesForQueen` offers only legal captures |
| EarlySteps.QueenJumps | chekers_rules/src/main/kotlin/StepSearcher.kt:56-86 | the queen's captures; no contract of its own, QueenJumpsSound states them |
| EarlySteps.JumpCloned | chekers_rules/src/main/kotlin/StepSearcher.kt:107-124 | a capture stays legal on a clone, which has the same pieces and no queen |
| EarlySteps.ManFrom | chekers_rules/src/main/kotlin/StepSearcher.kt:103-117 | with no capture left a non-empty chain ends; otherwise each capture goes on from a clone |
| EarlySteps.ManAfter | chekers_rules/src/main/kotlin/StepSearcher.kt:104-111 | after `kill` on a clone, a man crowned by it goes on as a queen |
| EarlySteps.QueenFrom | chekers_rules/src/main/kotlin/StepSearcher.kt:119-126 | the same for a queen, each capture by `killByQueen` on a clone |
| EarlySteps.ManFromExtends | chekers_rules/src/main/kotlin/StepSearcher.kt:103-117 | every chain `moveChecker` records extends the captures made so far, capture after capture |
| EarlySteps.QueenFromExtends | chekers_rules/src/main/kotlin/StepSearcher.kt:119-126 | every chain `moveQueen` records extends the captures made so far |
| EarlySteps.ManShare | chekers_rules/src/main/kotlin/StepSearcher.kt:100 | a man's chains from scratch; none exactly when it is a queen or has no capture |
| EarlySteps.QueenShare | chekers_rules/src/main/kotlin/StepSearcher.kt:129 | a queen's chains from scratch; none exactly when it is a man or has no capture |
| EarlySteps.MenShares | chekers_rules/src/main/kotlin/StepSearcher.kt:99-101 | what each listed piece gathers in `calculateForCheckers`, in order |
| EarlySteps.QueensShares | chekers_rules/src/main/kotlin/StepSearcher.kt:128-130 | what each listed piece gathers in `calculateForQueens`, in order |
| EarlySteps.NoChains | chekers_rules/src/main/kotlin/StepSearcher.kt:31-39 | no chain is collected exactly when no man and no queen records one |
| EarlySteps.MandatoryCapture | chekers_rules/src/main/kotlin/StepSearcher.kt:2 | when some piece has a capture, chains are collected and `steps` are the capture steps |
| EarlySteps.NoCaptureLeft | chekers_rules/src/main/kotlin/StepSearcher.kt:2 | quiet moves are offered only when no piece has a capture |
| EarlySteps.KillChains | chekers_rules/src/main/kotlin/StepSearcher.kt:31-34 | the chains `getAvailableKillSteps` collects, men first, then queens; no contract of its own, KillChainsPaths and NoChains state them |
| EarlySteps.KillChainsPaths | chekers_rules/src/main/kotlin/StepSearcher.kt:31-39 | every chain collected is a path of legal captures from one of the side's pieces |
| EarlySteps.Commands | chekers_rules/src/main/kotlin/StepSearcher.kt:51-82 | one "from:to" command per capture |
| EarlySteps.Visited | chekers_rules/src/main/kotlin/StepSearcher.kt:35-37 | the names of the squares a chain visits |
| EarlySteps.ChainTextVisited | chekers_rules/src/main/kotlin/StepSearcher.kt:35-37 | reducing a chain's commands gives the visited names joined by ':' |
| EarlySteps.ChainTextSquares | chekers_rules/src/main/kotlin/StepSearcher.kt:35-37 | a chain text split at ':' reads back as the squares the chain visits |
| EarlySteps.KillSteps | chekers_rules/src/main/kotlin/StepSearcher.kt:31-39 | the text of every chain the side's pieces record |
| EarlySteps.KillStepText | chekers_rules/src/main/kotlin/StepSearcher.kt:35-37 | the i-th kill step names the squares of the i-th chain, joined by ':' |
| EarlySteps.DiagonalsIn | chekers_rules/src/main/kotlin/StepSearcher.kt:132-142 | the non-empty rays for the directions, in order |
| EarlySteps.DiagonalsInRays | chekers_rules/src/main/kotlin/StepSearcher.kt:132-142 | `getDiagonals` lists exactly the non-empty rays from p, in direction order |
| EarlySteps.ManSlides | chekers_rules/src/main/kotlin/StepSearcher.kt:10-16 | a man's quiet moves in the given directions; no contract of its own, ManSlidesTargets states them |
| EarlySteps.ManSlidesTargets | chekers_rules/src/main/kotlin/StepSearcher.kt:10-16 | a man slides exactly to the neighbours in the given directions that are on the board and empty |
| EarlySteps.RowSlides | chekers_rules/src/main/kotlin/StepSearcher.kt:18-25 | a queen's quiet moves along one diagonal; no contract of its own, RowSlidesUpToPiece states them |
| EarlySteps.RowSlidesUpToPiece | chekers_rules/src/main/kotlin/StepSearcher.kt:18-25 | both branches for a queen come to the squares before the first piece |
| EarlySteps.MoveSteps | chekers_rules/src/main/kotlin/StepSearcher.kt:6-29 | `getAvailableMoveSteps()`: the quiet moves piece by piece in board order; no contract of its own, the searcher's GetAvailableMoveSteps loop is proved to return it |
| EarlySteps.Steps | chekers_rules/src/main/kotlin/StepSearcher.kt:2 | the capture steps when there are any, else the quiet moves |
| EarlySearcher.ChainCommands | chekers_rules/src/main/kotlin/StepSearcher.kt:4 | `commandChains` holds each chain's commands, in order |
| EarlySearcher.QueenDirsRows | chekers_rules/src/main/kotlin/StepSearcher.kt:58-59 | going over the non-empty diagonals finds what going over the directions finds |
| EarlySearcher.DiagonalIsRay | chekers_rules/src/main/kotlin/StepSearcher.kt:132-142 | each diagonal listed is the ray in the direction of its first square |
| EarlySearcher.FromSquare | chekers_rules/src/main/kotlin/StepSearcher.kt:82 | each landing name prefixed by the capturing square and ':' |
| EarlySearcher.KeptLandings | chekers_rules/src/main/kotlin/StepSearcher.kt:82 | the kept commands are those of the captures QueenDiagonal lists |
| EarlySearcher.ManAfterKill | chekers_rules/src/main/kotlin/StepSearcher.kt:104-115 | `kill` on a clone with an offered capture's command makes that capture |
| EarlySearcher.QueenAfterKill | chekers_rules/src/main/kotlin/StepSearcher.kt:120-124 | `killByQueen` on a clone with an offered capture's command makes that capture |
| EarlySearcher.Reduced | chekers_rules/src/main/kotlin/StepSearcher.kt:35-37 | reducing each command list gives its chain text |
| EarlySearcher.KillStepsReduced | chekers_rules/src/main/kotlin/StepSearcher.kt:31-39 | the gathered command lists all reduce, and reducing them gives the kill steps |
| EarlySearcher.StepSearcher.constructor | chekers_rules/src/main/kotlin/StepSearcher.kt:1-4 | the searcher holds the board and the colour, with no chain recorded |
| EarlySearcher.StepSearcher.GetDiagonals | chekers_rules/src/main/kotlin/StepSearcher.kt:132-142 | returns the non-empty rays from the square |
| EarlySearcher.StepSearcher.WalkRay | chekers_rules/src/main/kotlin/StepSearcher.kt:135-140 | the `while (true)` walk returns the ray |
| EarlySearcher.StepSearcher.HasVictimForQueen | chekers_rules/src/main/kotlin/StepSearcher.kt:87-97 | true exactly when the first piece met is an enemy and the square after it is empty |
| EarlySearcher.StepSearcher.FindKillMovesForChecker | chekers_rules/src/main/kotlin/StepSearcher.kt:41-54 | returns the commands of the man's legal short captures, in direction order |
| EarlySearcher.StepSearcher.KillMoveIn | chekers_rules/src/main/kotlin/StepSearcher.kt:45-51 | one loop pass: the capture in that direction, if any |
| EarlySearcher.StepSearcher.FindKillMovesForQueen | chekers_rules/src/main/kotlin/StepSearcher.kt:56-85 | returns the commands of the queen's captures, attacking landings preferred per diagonal |
| EarlySearcher.StepSearcher.QueenMovesOn | chekers_rules/src/main/kotlin/StepSearcher.kt:59-83 | one diagonal's commands |
| EarlySearcher.StepSearcher.VictimAndRun | chekers_rules/src/main/kotlin/StepSearcher.kt:60-66 | the victim's place and the end of the empty run behind it form a lane |
| EarlySearcher.StepSearcher.Landings | chekers_rules/src/main/kotlin/StepSearcher.kt:68-82 | the landing loop keeps the attacking landings when there are any, else all |
| EarlySearcher.StepSearcher.TryLanding | chekers_rules/src/main/kotlin/StepSearcher.kt:72-78 | true exactly when the queen can capture again from the trial board |
| EarlySearcher.StepSearcher.MoveChecker | chekers_rules/src/main/kotlin/StepSearcher.kt:103-117 | `commandChains` grows by the commands of the chains ManFrom/ManAfter records |
| EarlySearcher.StepSearcher.SearchForMan | chekers_rules/src/main/kotlin/StepSearcher.kt:112-116 | `commandChains` grows by the commands of ManFrom |
| EarlySearcher.StepSearcher.ManCaptures | chekers_rules/src/main/kotlin/StepSearcher.kt:114-116 | the `forEach` appends the chains of every capture in turn |
| EarlySearcher.StepSearcher.MoveQueen | chekers_rules/src/main/kotlin/StepSearcher.kt:119-126 | `commandChains` grows by the commands of the chains QueenFrom/QueenAfter records |
| EarlySearcher.StepSearcher.SearchForQueen | chekers_rules/src/main/kotlin/StepSearcher.kt:121-125 | `commandChains` grows by the commands of QueenFrom |
| EarlySearcher.StepSearcher.QueenCaptures | chekers_rules/src/main/kotlin/StepSearcher.kt:123-125 | the `forEach` appends the chains of every capture in turn |
| EarlySearcher.StepSearcher.CalculateForCheckers | chekers_rules/src/main/kotlin/StepSearcher.kt:99-101 | the men's chains are appended, the board is unchanged |
| EarlySearcher.StepSearcher.CalculateForQueens | chekers_rules/src/main/kotlin/StepSearcher.kt:128-130 | the queens' chains are appended, the board is unchanged |
| EarlySearcher.StepSearcher.GetAvailableKillSteps | chekers_rules/src/main/kotlin/StepSearcher.kt:31-39 | `commandChains` becomes the kill chains' commands and the result is KillSteps |
| EarlySearcher.StepSearcher.ManMoveSteps | chekers_rules/src/main/kotlin/StepSearcher.kt:10-16 | a man's quiet steps to empty neighbours in its forward directions |
| EarlySearcher.StepSearcher.RowMoveSteps | chekers_rules/src/main/kotlin/StepSearcher.kt:19-24 | a queen's steps along one diagonal |
| EarlySearcher.StepSearcher.QueenMoveSteps | chekers_rules/src/main/kotlin/StepSearcher.kt:18-25 | a queen's steps along all its diagonals |
| EarlySearcher.StepSearcher.GetAvailableMoveSteps | chekers_rules/src/main/kotlin/StepSearcher.kt:6-29 | returns MoveSteps: the quiet moves piece by piece in board order |
| EarlySearcher.StepSearcher.MoveStepsOf | chekers_rules/src/main/kotlin/StepSearcher.kt:8-27 | the `forEach` over the listed pieces returns SlidesOf them: each piece's quiet moves, appended in list order |
| EarlySearcher.StepSearcher.PieceMoveSteps | chekers_rules/src/main/kotlin/StepSearcher.kt:9-26 | one piece's quiet moves |
| EarlySearcher.StepSearcher.Steps | chekers_rules/src/main/kotlin/StepSearcher.kt:2 | returns Steps: the capture steps when there are any, else the quiet moves |
| Encoder.Conv | training/main/kotlin/InputEncoder.kt:8 | the size × size block whose top-left cell is x0, read row by row |
| Encoder.ConvAt | training/main/kotlin/InputEncoder.kt:8 | place i·size + j is the cell x0 + j + 8i |
| Encoder.ConvMatrix | training/main/kotlin/InputEncoder.kt:10-14 | every window that fits, by top-left cell, row by row |
| Encoder.ConvMatrixAt | training/main/kotlin/InputEncoder.kt:10-14 | window y·(9 − size) + x has its corner at row y, column x |
| Encoder.ConvMatrixHas | training/main/kotlin/InputEncoder.kt:10-14 | every window is the one at some corner that fits |
| Encoder.Board | training/main/kotlin/InputEncoder.kt:17-24 | the 64-cell board built from the vector's four values a row |
| Encoder.BoardAt | training/main/kotlin/InputEncoder.kt:18-24 | cell (i, j) is dark when i + j is odd and then holds value 4i + j / 2; a light cell is empty |
| Encoder.BoardRows | training/main/kotlin/InputEncoder.kt:17-24 | row i holds values 4i .. 4i + 3 |
| Encoder.ConvInput | training/main/kotlin/InputEncoder.kt:16-28 | the windows, each kept to its dark cells, the empty ones dropped |
| Encoder.WindowHasValue | training/main/kotlin/InputEncoder.kt:25-27 | a window of side 2 or more holds a dark cell |
| Encoder.ConvInputWindows | training/main/kotlin/InputEncoder.kt:25-27 | so `filter { it.isNotEmpty() }` drops nothing: (9 − size)² windows |
| Encoder.Encode | training/main/kotlin/InputEncoder.kt:30 | `encode(vector)`: the windows of sizes 3 to 8; no contract of its own, EncodeCount states its length |
| Encoder.EncodeCount | training/main/kotlin/InputEncoder.kt:30 | `encode` gives 36 + 25 + 16 + 9 + 4 + 1 = 91 windows, the 91 inputs of `Network(91, …)` at training/main/kotlin/training.kt:78 |
| Encoder.BoardValues | training/main/kotlin/InputEncoder.kt:17-27 | the board's present values are the vector's first 32 values, in order |
| Encoder.WholeBoardWindow | training/main/kotlin/InputEncoder.kt:25-30 | the one window of side 8 is the whole board, and its values are the input vector |
| Divider.Offsets | network/src/main/kotlin/layers.kt:85-86 | `0..n step stride` has n / stride + 1 elements, none when n < 0 |
| Divider.OffsetsAre | network/src/main/kotlin/layers.kt:85-86 | the offsets are the multiples of stride up to n, and the next multiple would pass n |
| Divider.Window | network/src/main/kotlin/layers.kt:87 | a window has size² places |
| Divider.WindowAt | network/src/main/kotlin/layers.kt:87 | place i·size + j is (posY + i)·side + posX + j |
| Divider.Positions | network/src/main/kotlin/layers.kt:85-89 | `positions`, the windows by corner row and column; no contract of its own, PositionsCount, PositionsAt, PositionsFit and PositionsInRange state them |
| Divider.PositionsCount | network/src/main/kotlin/layers.kt:84-90 | ((side − size) / stride + 1)² windows when the window fits, none otherwise |
| Divider.PositionsAt | network/src/main/kotlin/layers.kt:84-90 | window y·c + x has its corner in row y·stride, column x·stride |
| Divider.PositionsFit | network/src/main/kotlin/layers.kt:85-87 | every window's corner leaves room for it |
| Divider.PositionsInRange | network/src/main/kotlin/layers.kt:85-87 | every place lies in [0, side²), so `divide` never reads out of bounds |
| Divider.Divide | network/src/main/kotlin/layers.kt:92 | one list per window, shaped like `positions` |
| Divider.DivideAt | network/src/main/kotlin/layers.kt:92 | cell (i, j) of window (y, x) is the matrix element at row y·stride + i, column x·stride + j |
| Divider.DivideReads | network/src/main/kotlin/layers.kt:92 | element m of window k is x at place m of window k |

## Left out

- Console and GUI code, printing (`print`, `show`), `main`, the move counter and `println` in `minimax.kt`, and `decode`, `testEncodeToVector` and `encodeToVectorByMirror` of `Checkerboard.kt` are not part of this model.
- Kotlin exceptions are results: `None` or `ok == false`. The board state after an exception is not specified, since no caller catches one.
- Mutable checker objects, their `field` back-links and ids are values. Aliasing between boards is not modelled. `clone()` creates fresh values, and it drops the queen flag as the source does.
- `GameController`, which `minimax.kt` uses, is not part of this model. The tree is built over the reference engine's `Game`: `nextMoves`, and `go` on a copy.
- The global `agentColor` is a parameter.
- Minimax.Expand: children are built eagerly rather than lazily.
- Minimax.MaxValue: the `value` fields written below the root's children are returned as values and are not stored in nodes.
- `gameConstants`, `Color` and `Direction` are not part of this model. The letters are taken to be a..h, the directions [NW, NE, SW, SE], WHITE = 0 and BLACK = 1.
- EarlySteps.ManShare, EarlySearcher.StepSearcher.CalculateForCheckers, EarlySearcher.StepSearcher.GetAvailableKillSteps and EarlySearcher.StepSearcher.Steps: these assume every piece stands on a dark field (`AllDark`). That is how `create()` sets up a board, and `place` keeps it so. The assumption also bounds the recursion by the piece count.
- EarlySearcher.StepSearcher.MoveChecker: the blank `command` of the source is the empty string. Other blank texts are not modelled.
- EarlyBoard.Encode: `encodeToVector` returns Doubles; the model returns integers. The values 0, ±1 and ±3 are exact in a Double, so nothing is lost.
- Encoder.ConvInput: the vector has at least 32 values, as the board encoders give.
- Divider.Divide: requires stride > 0, where `step` throws. `side` and `size` are naturals. It also requires x to hold at least side² elements, which is stronger than the source needs: `x[it]` throws only when a listed place is past the end of x, and with side < size no place is listed at all. The callers in `Network.kt` pass vectors of that size.
- ParsePosition: a name is read as characters, and only '0'..'9' count as digits. Kotlin's `toInt` also accepts other Unicode decimal digits, so "a٣" names a3 in the source but gives None here. Kotlin strings are UTF-16, so a first character outside the Basic Multilingual Plane makes `substring(1, 2)` a lone surrogate, and `toInt` throws on it; here such a character is one char.
- NewPosition: the same two differences as ParsePosition. "a٣" parses in the source but gives None here, and "😀3" throws in the source but gives column −1 and row 2 here.
- BoardModel.CheckersBoard.RemoveSegment: with `to` off the board the outcome is left open. The kill that uses it then fails in `place`.
- Rules.Game.Go: the private `move` of `rules.kt:12-14` is folded into MoveSpec.
- MoveList.FirstCapture: `nextMoves` keeps only the first chain each piece's search finds (the `return@mapNotNull` inside `forEach`). The model does the same and does not list the other chains.

## Findings

| source | as written | input that shows it | evidently intended | confidence | as-written member | corrected member |
|---|---|---|---|---|---|---|
| checkers_rules/src/main/kotlin/model.kt:137-143 | `remove(from, to)`, which `kill` in `rules.kt:16-20` uses, empties the whole bounding rectangle of the two squares | the capture step "g5:e7" also empties g7, which is off its diagonal, whatever stands there | empty only the squares of the diagonal from..to, as the doc comments at `model.kt:134-135` and `145-146` say; the test at `Test.kt:61-64` expects g7's man to stay, but it drives `GameController`, which is not part of this model | not executed | Rules.KillSpec, Rules.KillClearsCorner, Rules.KillG5E7ClearsG7, Rules.GoSingleCapture | Rules.KillAlongDiagonal, Rules.KillAlongDiagonalEffect, Rules.KillAlongDiagonalKeepsG7, Rules.Game.KillOnDiagonal, BoardModel.CheckersBoard.RemoveSegment |

The model's `Game.Go` captures as written, through `remove`. The diagonal-only kill is `Rules.KillAlongDiagonal`, performed on the game's board by `Rules.Game.KillOnDiagonal`.
