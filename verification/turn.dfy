/**
 The turn step of the camera callback. Each frame maps the fingertip to a
 hovered cell; a fist over an empty cell while the lock is free writes O
 there and takes the lock. A deferred reply then writes X on the cell
 `bestMove` picks, if any, and frees the lock. The callback is split into a
 frame step and a separate, later reply step.

 There is no reset and no end-of-round state: the guard never looks for a
 winner, so play and replies go on after a line is complete.
 */
module Turn {
  import opened Board
  import opened Winner
  import opened Search
  import opened Selector

  /** The script's mutable state: the board and the lock taken while a reply is pending. */
  datatype Game = Game(board: Grid, locked: bool)

  function Initial(): (g: Game)
    ensures WellFormed(g.board) && !g.locked
    ensures Count(g.board, Some(O)) == 0 && Count(g.board, Some(X)) == 0
  {
    CountOccurs(EmptyBoard(), Some(O));
    CountOccurs(EmptyBoard(), Some(X));
    Game(EmptyBoard(), false)
  }

  /**
   The cell under the fingertip, from its grid column and row (the pixel
   position divided by the 100-pixel cell size and floored): nothing off the
   grid, otherwise the row-major index.
   */
  function HoverCell(col: int, row: int): (r: Option<nat>)
    ensures r != None <==> 0 <= col < 3 && 0 <= row < 3
    ensures r != None ==> r.value < Size && r.value / 3 == row && r.value % 3 == col
  {
    if col >= 0 && col < 3 && row >= 0 && row < 3 then Some(row * 3 + col) else None
  }

  /** Every cell is hovered from exactly the column and row it is drawn at. */
  lemma HoverReachesEveryCell(i: nat)
    requires i < Size
    ensures HoverCell(i % 3, i / 3) == Some(i)
  {
  }

  /** The guard of the human move: a fist, a hovered cell, the lock free and the cell empty. */
  predicate Accepts(g: Game, fist: bool, hover: Option<nat>)
    requires WellFormed(g.board)
  {
    fist && hover != None && !g.locked && hover.value < Size && g.board[hover.value] == None
  }

  /** The human move: on acceptance O goes into the hovered cell alone and the lock is taken; otherwise nothing changes. */
  function HumanMove(g: Game, fist: bool, hover: Option<nat>): (g': Game)
    requires WellFormed(g.board)
    ensures WellFormed(g'.board)
    ensures Accepts(g, fist, hover) ==>
      && g'.locked
      && g'.board[hover.value] == Some(O)
      && forall j :: 0 <= j < Size && j != hover.value ==> g'.board[j] == g.board[j]
    ensures !Accepts(g, fist, hover) ==> g' == g
  {
    if Accepts(g, fist, hover) then Game(g.board[hover.value := Some(O)], true)
    else g
  }

  /**
   The deferred reply: X goes into the cell `bestMove` picks and nowhere else,
   or the board stays as it is when full; the lock is freed either way.
   */
  function AiReply(g: Game): (g': Game)
    requires WellFormed(g.board)
    ensures WellFormed(g'.board) && !g'.locked
    ensures None !in g.board ==> g'.board == g.board
    ensures None in g.board ==>
      exists m: nat :: IsBestMove(g.board, m)
        && g'.board[m] == Some(X)
        && forall j :: 0 <= j < Size && j != m ==> g'.board[j] == g.board[j]
  {
    var ai := BestMove(g.board);
    if ai != None then Game(g.board[ai.value := Some(X)], false)
    else Game(g.board, false)
  }

  /** What reaches the engine: a frame without a hand, a frame with one, or the reply timer firing. */
  datatype Event = NoHand | Hand(fist: bool, col: int, row: int) | Timeout

  /**
   One event. A frame without a hand returns before touching the state. The
   timer exists only while the lock is held (the lock is taken exactly when it
   is scheduled and freed when it fires), so a `Timeout` on a free lock does nothing.
   */
  function Step(g: Game, e: Event): (g': Game)
    requires WellFormed(g.board)
    ensures WellFormed(g'.board)
    ensures e == NoHand ==> g' == g
    ensures g.locked && e != Timeout ==> g' == g
  {
    match e
    case NoHand => g
    case Hand(fist, col, row) => HumanMove(g, fist, HoverCell(col, row))
    case Timeout => if g.locked then AiReply(g) else g
  }

  function Run(g: Game, es: seq<Event>): (g': Game)
    requires WellFormed(g.board)
    ensures WellFormed(g'.board)
    decreases |es|
  {
    if es == [] then g else Run(Step(g, es[0]), es[1..])
  }

  /**
   The mark balance the turn order keeps: O leads X by one while a reply is
   pending and they are level otherwise, except on a full board, where the
   reply found no cell and O keeps its lead.
   */
  ghost predicate Balanced(g: Game) {
    && WellFormed(g.board)
    && var o := Count(g.board, Some(O));
       var x := Count(g.board, Some(X));
       && (o == x || o == x + 1)
       && (g.locked ==> o == x + 1)
       && (!g.locked && o == x + 1 ==> None !in g.board)
  }

  lemma HumanMoveBalanced(g: Game, fist: bool, hover: Option<nat>)
    requires Balanced(g)
    ensures Balanced(HumanMove(g, fist, hover))
  {
    if Accepts(g, fist, hover) {
      var h := hover.value;
      CountUpdate(g.board, h, Some(O), Some(O));
      CountUpdate(g.board, h, Some(O), Some(X));
      assert None in g.board;
    }
  }

  lemma AiReplyBalanced(g: Game)
    requires Balanced(g) && g.locked
    ensures Balanced(AiReply(g))
  {
    var ai := BestMove(g.board);
    if ai != None {
      CountUpdate(g.board, ai.value, Some(X), Some(O));
      CountUpdate(g.board, ai.value, Some(X), Some(X));
    }
  }

  lemma {:induction false} RunBalanced(g: Game, es: seq<Event>)
    requires Balanced(g)
    ensures Balanced(Run(g, es))
    decreases |es|
  {
    if es != [] {
      match es[0] {
        case NoHand =>
        case Hand(fist, col, row) => HumanMoveBalanced(g, fist, HoverCell(col, row));
        case Timeout => if g.locked { AiReplyBalanced(g); }
      }
      RunBalanced(Step(g, es[0]), es[1..]);
    }
  }

  /** From the empty board, whatever happens, O has as many marks as X or one more. */
  lemma PlayKeepsTurnOrder(es: seq<Event>)
    ensures var g := Run(Initial(), es);
            var o := Count(g.board, Some(O));
            var x := Count(g.board, Some(X));
            o == x || o == x + 1
  {
    RunBalanced(Initial(), es);
  }

  /** While the reply is pending, frames change nothing: a second human move cannot get in. */
  lemma {:induction false} LockedIgnoresFrames(g: Game, es: seq<Event>)
    requires WellFormed(g.board) && g.locked
    requires forall k :: 0 <= k < |es| ==> es[k] != Timeout
    ensures Run(g, es) == g
    decreases |es|
  {
    if es != [] {
      assert Step(g, es[0]) == g;
      LockedIgnoresFrames(g, es[1..]);
    }
  }

  /**
   The guard does not look for a winner: O completing the top row is
   accepted. The reply still comes: every empty cell scores -1 for X, since
   the top row is listed first, so X goes to cell 5, the first empty one. That
   completes X's middle row, yet the board still reads as won by O.
   */
  lemma ReplyAfterHumanWin(g: Game)
    requires g == Game([Some(O), Some(O), None, Some(X), Some(X), None, None, None, None], false)
    ensures var g1 := Step(g, Hand(true, 2, 0));
            && g1.board == [Some(O), Some(O), Some(O), Some(X), Some(X), None, None, None, None]
            && g1.locked
            && CheckWinner(g1.board) == Some(O)
            && var g2 := Step(g1, Timeout);
               && !g2.locked
               && g2.board == [Some(O), Some(O), Some(O), Some(X), Some(X), Some(X), None, None, None]
               && CheckWinner(g2.board) == Some(O)
  {
    var g1 := Step(g, Hand(true, 2, 0));
    assert g1 == Game(g.board[2 := Some(O)], true);
    TopRowForO(g1.board);
    ReplyOnTopRowWin(g1, g1.board);
  }

  /** The reply on the board O has just won: X takes cell 5, the first empty cell, and O still reads as the winner. */
  lemma ReplyOnTopRowWin(g1: Game, b1: Grid)
    requires b1 == [Some(O), Some(O), Some(O), Some(X), Some(X), None, None, None, None]
    requires g1 == Game(b1, true)
    ensures var g2 := Step(g1, Timeout);
            && !g2.locked
            && g2.board == [Some(O), Some(O), Some(O), Some(X), Some(X), Some(X), None, None, None]
            && CheckWinner(g2.board) == Some(O)
  {
    EveryReplyScoresLoss(b1);
    assert IsBestMove(b1, 5);
    ReplyTakesBestMove(g1, 5);
    var b2 := Step(g1, Timeout).board;
    assert b2 == b1[5 := Some(X)];
    TopRowForO(b2);
  }

  /** The reply writes X on the one cell meeting the best-move description. */
  lemma ReplyTakesBestMove(g: Game, m: nat)
    requires WellFormed(g.board) && g.locked && IsBestMove(g.board, m)
    ensures Step(g, Timeout) == Game(g.board[m := Some(X)], false)
  {
    BestMoveUnique(g.board, BestMove(g.board).value, m);
  }

  /** A top row of O is the first triple in the list, so it decides the winner whatever else is on the board. */
  lemma TopRowForO(b: Grid)
    requires WellFormed(b) && b[0] == Some(O) && b[1] == Some(O) && b[2] == Some(O)
    ensures CheckWinner(b) == Some(O)
  {
    assert FirstCompleteFrom(b, 0, 0) && Owns(b, 0, O);
  }

  /** With O on the top row, every X reply leaves O the winner, so every empty cell scores -1. */
  lemma EveryReplyScoresLoss(b: Grid)
    requires WellFormed(b) && b[0] == Some(O) && b[1] == Some(O) && b[2] == Some(O)
    ensures forall i :: 0 <= i < Size && b[i] == None ==> MoveScore(b, i) == -1
  {
    forall i | 0 <= i < Size && b[i] == None
      ensures MoveScore(b, i) == -1
    {
      var c := Child(b, i, true);
      TopRowForO(c);
      TerminalIgnoresMover(c);
      assert MoveScore(b, i) == Minimax(c, false);
    }
  }

  /** A reply on a board with an empty cell adds exactly one X. */
  lemma AiPlacesOneX(g: Game)
    requires WellFormed(g.board) && None in g.board
    ensures Count(AiReply(g).board, Some(X)) == Count(g.board, Some(X)) + 1
  {
    var ai := BestMove(g.board);
    assert AiReply(g).board == g.board[ai.value := Some(X)];
    CountUpdate(g.board, ai.value, Some(X), Some(X));
  }
}
