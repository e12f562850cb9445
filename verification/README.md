# Gesture tic-tac-toe engine, modelled in Dafny

The game is tic-tac-toe played in a browser against the computer. A camera
tracks the player's hand: the index fingertip chooses a cell and a closed fist
plays it. The player is `O` and the computer is `X`. This project models the
game engine of `script.js`:

- **Win detection** (`checkWinner`): eight fixed triples are scanned in order
  (rows, columns, diagonals), and the mark of the first complete one is
  returned.
- **Minimax** (`minimax`): the full game tree is searched. A position scores
  +1 if X has won, -1 if O has won and 0 on a full board. Otherwise it takes
  the maximum child score when X is to move and the minimum when O is. The
  script fills a cell, searches and clears it again on one shared board.
- **Move selection** (`bestMove`): X is tried in each empty cell in index
  order. The first cell with the strictly highest score is kept.
- **Turn step** (the `hands.onResults` callback): the fingertip is mapped to a
  hovered cell. A fist over an empty hovered cell while the lock is free
  writes `O` and takes the lock. A reply 400 ms later writes `X` on
  `bestMove`'s cell, if there is one, and frees the lock.

Modules, one per file:

- `Board` (`board.dfy`): marks, the nine-cell grid, cell counting.
- `Winner` (`winner.dfy`): `checkWinner`.
- `Search` (`minimax.dfy`): `minimax`, as a pure function and as the in-place search.
- `Selector` (`bestmove.dfy`): `bestMove`, as a pure function and as the in-place loop.
- `Turn` (`turn.dfy`): hover mapping, human move, deferred reply, event runs.

The pure functions are the specification. `Search.SearchInPlace` and
`Selector.BestMoveInPlace` follow the script's fill/search/clear loops on a
board value passed through every call. They are proved to return the board
unchanged and to compute the same result as the pure functions.

The deferred reply is its own step. In `Turn.Step` a `Timeout` event fires
the pending reply. The lock is held exactly while a reply is pending, so a
`Timeout` on a free lock does nothing. The fist test and the pixel-to-grid
arithmetic are not modelled. The turn step instead takes a boolean "fist" and
the integer column and row.

Behaviour of the script worth knowing:

- There is no reset and no "round over" state.
- The move guard never checks for a winner, so the computer still replies
  after the human has won. `Turn.ReplyAfterHumanWin` shows this: after O
  completes the top row, X takes cell 5 and completes the middle row, yet
  `checkWinner` still reports O, whose row is listed first.
- A human move is triggered by the fist being closed in a frame, not by the
  moment it closes. Holding a fist after a reply can play again at once.
- A rejected move is silently ignored; no error is reported.
- Minimax scores from X's point of view whichever side is "maximising": X's
  win is always +1.
- With X on 0, 2, 4 and O on 1, 3, 5, both cells 6 and 8 win for X, and
  `bestMove` returns 6, the lower index (`Selector.TakesLowestWinningCell`).
  Cell 8 wins too; the strict `>` keeps the first winning cell.

## Model

| member | source | states |
|---|---|---|
| `Board.EmptyBoard` | script.js:5 | the starting board has nine cells, all empty |
| `Board.FillDecreasesEmpty` | script.js:80-84 | filling an empty cell leaves exactly one empty cell fewer, so the recursive search terminates |
| `Winner.WinnerFrom` | script.js:67-70 | the scan from list position k reports nothing iff no triple from k on is complete; otherwise its mark fills all three cells of the first complete triple from k on |
| `Winner.CheckWinner` | script.js:61-71 | `checkWinner` gives mark m iff the first complete triple in the fixed list is filled by m, and gives nothing iff no triple is filled by either mark |
| `Winner.FirstOwnedLineDecides` | script.js:67-70 | the scan over the whole list gives m iff the first complete triple is filled by m, and nothing iff no triple is filled by either mark |
| `Winner.FullBoardWithoutLine` | script.js:67-70 | a full board with no three in a row has no winner |
| `Winner.FirstListedTripleWins` | script.js:62-69 | with two complete triples, the one listed first decides the winner |
| `Search.MaxOf` | script.js:87 | `Math.max` of a non-empty list is one of its elements and bounds all of them |
| `Search.MinOf` | script.js:87 | `Math.min` of a non-empty list is one of its elements and is bounded by all of them |
| `Search.Scores` | script.js:79-86 | the scores list has one entry per empty cell in the scanned prefix, each in [-1, 1] |
| `Search.Minimax` | script.js:73-88 | minimax always terminates with a score in {-1, 0, 1} |
| `Search.ScoresHoldChildScores` | script.js:80-83 | every empty cell contributes the score of the child where the side to move took it |
| `Search.ScoresOnlyChildScores` | script.js:80-83 | the scores list holds nothing but scores of children reached through empty cells |
| `Search.TerminalIgnoresMover` | script.js:74-77 | an X win scores 1, an O win -1 and a full board without a winner 0, whichever side is to move |
| `Search.MinimaxBoundsChildren` | script.js:79-87 | in a position with no winner and an empty cell, the score is at least every child score when X moves and at most every child score when O moves |
| `Search.MinimaxAttainedByChild` | script.js:79-87 | in such a position some child has exactly the position's score, so the score is the maximum (X) or minimum (O) over the children |
| `Search.SearchInPlace` | script.js:73-88 | the fill/search/clear search returns the board exactly as it received it, and its score is minimax's |
| `Selector.Scan` | script.js:94-104 | the loop, continued from any state meeting its loop conditions, ends with no move iff the board is full, and otherwise with the best move |
| `Selector.ScanStep` | script.js:95-102 | one iteration keeps the loop conditions: the kept cell has the highest score so far and beats every earlier empty cell strictly |
| `Selector.ScanComplete` | script.js:105 | after the last cell the loop conditions say the returned cell is the best move, or none on a full board |
| `Selector.BestMove` | script.js:90-106 | `bestMove` returns nothing iff the board has no empty cell; otherwise an empty cell in 0..8 with the maximal score, every empty cell before it scoring strictly lower |
| `Selector.BestMoveUnique` | script.js:99-102 | at most one cell meets that description, so the strict comparison fixes the tie-break to the lowest index |
| `Selector.BestMoveInPlace` | script.js:90-106 | the in-place loop hands the board back unchanged and returns the best move, or nothing exactly on a full board; its result equals `BestMove`'s |
| `Selector.TakesLowestWinningCell` | script.js:94-104 | with two winning cells 6 and 8 for X, `bestMove` returns 6 |
| `Turn.Initial` | script.js:5-7 | the game starts unlocked on an empty board, with no O and no X |
| `Turn.HoverCell` | script.js:144-149 | a cell is hovered iff column and row are both in 0..2; the cell is in 0..8 and decodes back to that row and column |
| `Turn.HoverReachesEveryCell` | script.js:147-149 | every cell 0..8 is hovered from its own column and row |
| `Turn.HumanMove` | script.js:153-157 | an accepted move (fist, hovered cell, lock free, cell empty) writes O to that cell only and takes the lock; any other frame changes nothing |
| `Turn.AiReply` | script.js:161-167 | the reply frees the lock; on a full board it changes nothing, otherwise it writes X to `bestMove`'s cell and to no other cell |
| `Turn.Step` | script.js:128-170 | a frame without a hand changes nothing; while the lock is held, only the pending reply can change the state |
| `Turn.Run` | script.js:128-170 | applies the frames and timer callbacks in order, keeping the board nine cells; what a run preserves is stated by `Turn.RunBalanced` and `Turn.LockedIgnoresFrames` |
| `Turn.HumanMoveBalanced` | script.js:153-157 | a human move keeps the mark balance: O equals X or leads by one, leads whenever the lock is held, and leads with the lock free only on a full board |
| `Turn.AiReplyBalanced` | script.js:161-167 | the reply keeps the same mark balance |
| `Turn.RunBalanced` | script.js:128-170 | any sequence of frames and replies keeps the mark balance |
| `Turn.PlayKeepsTurnOrder` | script.js:153-168 | from the empty board, after any events, the O count equals the X count or exceeds it by one |
| `Turn.LockedIgnoresFrames` | script.js:153-154 | while the reply is pending, any number of frames leave the state unchanged, so no second O can be placed |
| `Turn.ReplyAfterHumanWin` | script.js:153-168 | O completing the top row is accepted and reported as a win; the reply still comes, frees the lock and puts X on cell 5, and O is still reported as the winner |
| `Turn.ReplyOnTopRowWin` | script.js:161-167 | on the board O has just won, the reply frees the lock, writes X on cell 5 only, and the board still reads as won by O |
| `Turn.ReplyTakesBestMove` | script.js:161-167 | when the lock is held, the timer callback writes X on the unique best-move cell and nowhere else, and frees the lock |
| `Turn.TopRowForO` | script.js:62-68 | a top row of O decides the winner as O whatever else is on the board, because it is the first triple listed |
| `Turn.EveryReplyScoresLoss` | script.js:73-77 | with O on the top row, every empty cell scores -1 for X, because the child still has O's top row |
| `Turn.AiPlacesOneX` | script.js:161-167 | a reply on a board with an empty cell adds exactly one X |

## Left out

- Camera access, the MediaPipe hand tracker and the frame loop (script.js:1-3, 9-11, 119-126, 172-177) are I/O and foreign library calls.
- The `hoverCell` global (script.js:6) is not kept as state: line 147 recomputes it in every frame before it is used, so `Turn.Step` passes it straight from `Turn.HoverCell` to `Turn.HumanMove`.
- Canvas drawing (`drawBoard`, `drawO`, `drawX`, `drawHover`, script.js:14-58, 129-134, 151, 158, 165) only renders.
- The fist test (`fingerOpen`, `isFist`, script.js:109-116) compares floating-point landmark positions from the tracker; the turn step takes its outcome as a boolean.
- The conversion of the fingertip position into pixels and grid cells (script.js:141-145) is floating-point arithmetic; the turn step takes the floored column and row as integers.
- The 400 ms delay of the reply (script.js:161, 168) is modelled only as ordering: the reply is a later, separate `Timeout` event.
- The claim that the computer never loses is not stated: the script does not check it, and it needs reasoning over the whole game tree.
